/**
  DES and triple DES of src/core/shs_math.cc: the word operations, and why decryption
  undoes encryption.

  The two words of a block are kept rotated one bit to the left between the initial and
  the final permutation.  Every round changes one word by a function of the other.
*/
module Des {
  import opened DesTables

  datatype Words = Words(left: bv32, right: bv32)

  function Swap(w: Words): Words {
    Words(w.right, w.left)
  }

  // ----- permutations -----

  /** INITIAL_PERMUTATION: lines 273-281. */
  function InitialPermutation(w: Words): Words {
    var t1 := ((w.left >> 4) ^ w.right) & 0x0f0f0f0f;
    var r1, l1 := w.right ^ t1, w.left ^ (t1 << 4);
    var t2 := ((l1 >> 16) ^ r1) & 0x0000ffff;
    var r2, l2 := r1 ^ t2, l1 ^ (t2 << 16);
    var t3 := ((r2 >> 2) ^ l2) & 0x33333333;
    var l3, r3 := l2 ^ t3, r2 ^ (t3 << 2);
    var t4 := ((r3 >> 8) ^ l3) & 0x00ff00ff;
    var l4, r4 := l3 ^ t4, r3 ^ (t4 << 8);
    var r5 := (r4 << 1) | (r4 >> 31);
    var t5 := (l4 ^ r5) & 0xaaaaaaaa;
    var r6, l6 := r5 ^ t5, l4 ^ t5;
    Words((l6 << 1) | (l6 >> 31), r6)
  }

  /** FINAL_PERMUTATION: lines 286-295. */
  function FinalPermutation(w: Words): Words {
    var l0 := (w.left << 31) | (w.left >> 1);
    var t0 := (l0 ^ w.right) & 0xaaaaaaaa;
    var l1, r1 := l0 ^ t0, w.right ^ t0;
    var r2 := (r1 << 31) | (r1 >> 1);
    var t3 := ((r2 >> 8) ^ l1) & 0x00ff00ff;
    var l3, r3 := l1 ^ t3, r2 ^ (t3 << 8);
    var t4 := ((r3 >> 2) ^ l3) & 0x33333333;
    var l4, r4 := l3 ^ t4, r3 ^ (t4 << 2);
    var t5 := ((l4 >> 16) ^ r4) & 0x0000ffff;
    var r5, l5 := r4 ^ t5, l4 ^ (t5 << 16);
    var t6 := ((l5 >> 4) ^ r5) & 0x0f0f0f0f;
    Words(l5 ^ (t6 << 4), r5 ^ t6)
  }

  lemma FinalUndoesInitial(w: Words)
    ensures FinalPermutation(InitialPermutation(w)) == w
  {
  }

  lemma InitialUndoesFinal(w: Words)
    ensures InitialPermutation(FinalPermutation(w)) == w
  {
  }

  // ----- rounds -----

  // The tables, as functions of the six bits they are looked up with.

  function Box1(i: bv6): bv32 { SBOX1[i as int] }
  function Box2(i: bv6): bv32 { SBOX2[i as int] }
  function Box3(i: bv6): bv32 { SBOX3[i as int] }
  function Box4(i: bv6): bv32 { SBOX4[i as int] }
  function Box5(i: bv6): bv32 { SBOX5[i as int] }
  function Box6(i: bv6): bv32 { SBOX6[i as int] }
  function Box7(i: bv6): bv32 { SBOX7[i as int] }
  function Box8(i: bv6): bv32 { SBOX8[i as int] }

  function Index(work: bv32, shift: bv5): bv6 {
    ((work >> shift) & 0x3f) as bv6
  }

  /** Addition bit by bit. */
  function Xor(x: bv32, y: bv32): bv32 {
    x ^ y
  }

  function Turned(x: bv32): bv32 {
    (x << 28) | (x >> 4)
  }

  /** What DES_ROUND adds to the other word: lines 302-312. */
  function Mix(from: bv32, key0: bv32, key1: bv32): bv32 {
    LookedUp(Xor(from, key0), Xor(Turned(from), key1))
  }

  /** The table entries for the two values of the work word, added one after the other. */
  function LookedUp(a: bv32, b: bv32): bv32 {
    Added(Box8(Index(a, 0)), Box6(Index(a, 8)), Box4(Index(a, 16)), Box2(Index(a, 24)),
          Box7(Index(b, 0)), Box5(Index(b, 8)), Box3(Index(b, 16)), Box1(Index(b, 24)))
  }

  function Added(p: bv32, q: bv32, r: bv32, s: bv32, t: bv32, u: bv32, v: bv32, w: bv32): bv32 {
    p ^ q ^ r ^ s ^ t ^ u ^ v ^ w
  }

  datatype Subkey = Subkey(key0: bv32, key1: bv32)

  /** One DES_ROUND, into the left word or into the right word. */
  function Round(w: Words, toLeft: bool, k: Subkey): Words {
    if toLeft then Words(Xor(w.left, Mix(w.right, k.key0, k.key1)), w.right)
    else Words(w.left, Xor(w.right, Mix(w.left, k.key0, k.key1)))
  }

  lemma RoundUndoesItself(w: Words, toLeft: bool, k: Subkey)
    ensures Round(Round(w, toLeft, k), toLeft, k) == w
  {
    hide Mix;
  }

  lemma RoundSwapped(w: Words, toLeft: bool, k: Subkey)
    ensures Round(Swap(w), toLeft, k) == Swap(Round(w, !toLeft, k))
  {
    hide Mix;
  }

  datatype Turn = Turn(toLeft: bool, k: Subkey)

  function Turns(w: Words, ts: seq<Turn>): Words {
    if ts == [] then w else Round(Turns(w, ts[..|ts| - 1]), ts[|ts| - 1].toLeft, ts[|ts| - 1].k)
  }

  lemma TurnsNext(w: Words, ts: seq<Turn>, i: nat)
    requires i < |ts|
    ensures Turns(w, ts[..i + 1]) == Round(Turns(w, ts[..i]), ts[i].toLeft, ts[i].k)
  {
    hide Round;
    assert ts[..i + 1][..i] == ts[..i];
  }

  /** The same subkeys from the last to the first, each into the other word. */
  ghost function Mirrored(ts: seq<Turn>): (r: seq<Turn>)
    ensures |r| == |ts|
    ensures forall i :: 0 <= i < |ts| ==> r[i] == Turn(!ts[|ts| - 1 - i].toLeft, ts[|ts| - 1 - i].k)
  {
    if ts == [] then [] else [Turn(!ts[|ts| - 1].toLeft, ts[|ts| - 1].k)] + Mirrored(ts[..|ts| - 1])
  }

  lemma {:induction false} TurnsFirst(w: Words, t: Turn, ts: seq<Turn>)
    ensures Turns(w, [t] + ts) == Turns(Round(w, t.toLeft, t.k), ts)
  {
    hide Round;
    if ts == [] {
      assert [t] + ts == [t];
      assert Turns(w, [t][..0]) == w;
    } else {
      assert ([t] + ts)[..|ts|] == [t] + ts[..|ts| - 1];
      TurnsFirst(w, t, ts[..|ts| - 1]);
    }
  }

  /** A Feistel network runs backwards by swapping the words and taking the subkeys in reverse. */
  lemma {:induction false} MirroredTurnsUndo(w: Words, ts: seq<Turn>)
    ensures Turns(Swap(Turns(w, ts)), Mirrored(ts)) == Swap(w)
  {
    if ts != [] {
      var last, init := ts[|ts| - 1], ts[..|ts| - 1];
      var v := Turns(w, init);
      TurnsFirst(Swap(Turns(w, ts)), Turn(!last.toLeft, last.k), Mirrored(init));
      RoundSwapped(Round(v, last.toLeft, last.k), !last.toLeft, last.k);
      RoundUndoesItself(v, last.toLeft, last.k);
      MirroredTurnsUndo(w, init);
    }
  }

  // ----- whole blocks -----

  /** Which way round `i` goes: the middle 16 of 48 start with the other word. */
  predicate GoesLeft(i: nat) {
    (i % 2 == 0) == !(16 <= i < 32)
  }

  lemma MirroredDirection(i: nat, n: nat)
    requires n == 16 || n == 48
    requires i < n
    ensures GoesLeft(i) == !GoesLeft(n - 1 - i)
  {
    assert (n - 1 - i) % 2 == 0 <==> i % 2 != 0;
  }

  /** The rounds of gl_des_ecb_crypt and gl_3des_ecb_crypt. */
  function Schedule(keys: seq<Subkey>): (ts: seq<Turn>)
    ensures |ts| == |keys|
    ensures forall i :: 0 <= i < |ts| ==> ts[i] == Turn(GoesLeft(i), keys[i])
  {
    seq(|keys|, i requires 0 <= i < |keys| => Turn(GoesLeft(i), keys[i]))
  }

  /** What both ciphers compute on a block. */
  function Crypt(w: Words, keys: seq<Subkey>): Words {
    FinalPermutation(Swap(Turns(InitialPermutation(w), Schedule(keys))))
  }

  ghost predicate Reversed(r: seq<Subkey>, keys: seq<Subkey>) {
    |r| == |keys| && forall i :: 0 <= i < |keys| ==> r[i] == keys[|keys| - 1 - i]
  }

  lemma MirroredSchedule(keys: seq<Subkey>, r: seq<Subkey>)
    requires Reversed(r, keys) && (|keys| == 16 || |keys| == 48)
    ensures Schedule(r) == Mirrored(Schedule(keys))
  {
    hide GoesLeft;
    forall i | 0 <= i < |keys|
      ensures Schedule(r)[i] == Mirrored(Schedule(keys))[i]
    {
      MirroredDirection(i, |keys|);
    }
  }

  /** With the subkeys reversed, the cipher undoes itself. */
  lemma CryptUndone(w: Words, keys: seq<Subkey>, r: seq<Subkey>)
    requires Reversed(r, keys) && (|keys| == 16 || |keys| == 48)
    ensures Crypt(Crypt(w, keys), r) == w && Crypt(Crypt(w, r), keys) == w
  {
    CryptUndoneOnce(w, keys, r);
    assert Reversed(keys, r);
    CryptUndoneOnce(w, r, keys);
  }

  lemma CryptUndoneOnce(w: Words, keys: seq<Subkey>, r: seq<Subkey>)
    requires Reversed(r, keys) && (|keys| == 16 || |keys| == 48)
    ensures Crypt(Crypt(w, keys), r) == w
  {
    var ts := Schedule(keys);
    var v := Turns(InitialPermutation(w), ts);
    InitialUndoesFinal(Swap(v));
    FinalUndoesInitial(w);
    MirroredSchedule(keys, r);
    MirroredTurnsUndo(InitialPermutation(w), ts);
  }
}
