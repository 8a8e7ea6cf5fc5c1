/**
  The DES and triple-DES contexts of src/core/shs_math.cc: subkey tables, and blocks in ECB mode.
*/
module DesCiphers {
  import opened Des
  import opened DesKeys
  import opened PairTables

  /** The subkeys in a table of words. */
  function Pairs(table: seq<bv32>): (keys: seq<Subkey>)
    ensures |keys| == |table| / 2
    ensures forall i :: 0 <= i < |keys| ==> keys[i] == Subkey(table[2 * i], table[2 * i + 1])
  {
    seq(|table| / 2, i requires 0 <= i < |table| / 2 => Subkey(table[2 * i], table[2 * i + 1]))
  }

  /** One block in ECB mode. */
  function CryptBlock(from: seq<bv8>, keys: seq<Subkey>): (to: seq<bv8>)
    requires |from| == 8
    ensures |to| == 8
  {
    WriteWords(Crypt(ReadWords(from), keys))
  }

  /** With the subkeys reversed, every block is restored. */
  lemma BlockRestored(from: seq<bv8>, keys: seq<Subkey>, r: seq<Subkey>)
    requires |from| == 8 && Reversed(r, keys) && (|keys| == 16 || |keys| == 48)
    ensures CryptBlock(CryptBlock(from, keys), r) == from
  {
    var w := ReadWords(from);
    BytesAndWords(Crypt(w, keys), from);
    CryptUndone(w, keys, r);
  }

  // ----- triple DES is three times DES -----

  lemma {:induction false} TurnsAppend(w: Words, a: seq<Turn>, b: seq<Turn>)
    ensures Turns(w, a + b) == Turns(Turns(w, a), b)
  {
    hide Round;
    if b == [] {
      assert a + b == a;
    } else {
      assert (a + b)[..|a + b| - 1] == a + b[..|b| - 1];
      TurnsAppend(w, a, b[..|b| - 1]);
    }
  }

  /** The same turns, into the other words. */
  ghost function Crossed(ts: seq<Turn>): (r: seq<Turn>)
    ensures |r| == |ts| && forall i :: 0 <= i < |ts| ==> r[i] == Turn(!ts[i].toLeft, ts[i].k)
  {
    seq(|ts|, i requires 0 <= i < |ts| => Turn(!ts[i].toLeft, ts[i].k))
  }

  lemma {:induction false} CrossedTurns(w: Words, ts: seq<Turn>)
    ensures Turns(Swap(w), ts) == Swap(Turns(w, Crossed(ts)))
  {
    if ts != [] {
      var n := |ts| - 1;
      assert Crossed(ts)[..n] == Crossed(ts[..n]);
      CrossedTurns(w, ts[..n]);
      RoundSwapped(Turns(w, Crossed(ts[..n])), ts[n].toLeft, ts[n].k);
      hide Round;
    }
  }

  lemma ThreeSchedules(a: seq<Subkey>, b: seq<Subkey>, c: seq<Subkey>)
    requires |a| == |b| == |c| == 16
    ensures Schedule(a + b + c) == Schedule(a) + Crossed(Schedule(b)) + Schedule(c)
  {
    forall i | 0 <= i < 48
      ensures Schedule(a + b + c)[i] == (Schedule(a) + Crossed(Schedule(b)) + Schedule(c))[i]
    {
      assert GoesLeft(i) == if i < 16 then GoesLeft(i) else if i < 32 then !GoesLeft(i - 16) else GoesLeft(i - 32);
    }
  }

  /** 48 rounds without the permutations in between are three passes of 16 rounds. */
  lemma TripleIsThreePasses(w: Words, a: seq<Subkey>, b: seq<Subkey>, c: seq<Subkey>)
    requires |a| == |b| == |c| == 16
    ensures Crypt(w, a + b + c) == Crypt(Crypt(Crypt(w, a), b), c)
  {
    var v0 := InitialPermutation(w);
    var v1 := Turns(v0, Schedule(a));
    var v2 := Turns(v1, Crossed(Schedule(b)));
    ThreeSchedules(a, b, c);
    TurnsAppend(v0, Schedule(a) + Crossed(Schedule(b)), Schedule(c));
    TurnsAppend(v0, Schedule(a), Crossed(Schedule(b)));
    InitialUndoesFinal(Swap(v1));
    CrossedTurns(v1, Schedule(b));
    InitialUndoesFinal(v2);
    hide InitialPermutation, FinalPermutation, Turns, Schedule;
    assert Swap(Swap(v2)) == v2;
  }

  /** With equal keys, triple DES is single DES: the first two passes cancel. */
  lemma EqualKeysAreSingle(w: Words, a: seq<Subkey>, b: seq<Subkey>)
    requires |a| == 16 && Reversed(b, a)
    ensures Crypt(w, a + b + a) == Crypt(w, a)
  {
    TripleIsThreePasses(w, a, b, a);
    CryptUndone(w, a, b);
  }

  // ----- contexts -----

  ghost function Backwards(keys: seq<Subkey>): (r: seq<Subkey>)
    ensures Reversed(r, keys)
  {
    seq(|keys|, i requires 0 <= i < |keys| => keys[|keys| - 1 - i])
  }

  /** Subkeys as words of a table. */
  ghost function Flat(keys: seq<Subkey>): (f: seq<bv32>)
    ensures |f| == 2 * |keys|
    ensures forall t :: 0 <= t < |keys| ==> f[2 * t] == keys[t].key0 && f[2 * t + 1] == keys[t].key1
  {
    seq(2 * |keys|, j requires 0 <= j < 2 * |keys| => if j % 2 == 0 then keys[j / 2].key0 else keys[j / 2].key1)
  }

  /** The 16 subkeys in the table from `base` on. */
  ghost predicate PairsIn(table: array<bv32>, base: nat, keys: seq<Subkey>)
    reads table
  {
    && |keys| == 16 && base + 32 <= table.Length
    && forall t :: 0 <= t < 16 ==> keys[t] == Subkey(table[base + 2 * t], table[base + 2 * t + 1])
  }

  lemma SamePairs(table: array<bv32>, base: nat, keys: seq<Subkey>)
    requires |keys| == 16 && Same(table, base, Flat(keys))
    ensures PairsIn(table, base, keys)
  {
    forall t | 0 <= t < 16
      ensures keys[t] == Subkey(table[base + 2 * t], table[base + 2 * t + 1])
    {
      var f := Flat(keys);
      assert f[2 * t] == keys[t].key0 && f[2 * t + 1] == keys[t].key1;
      hide Flat;
      assert table[base + (2 * t + 1)] == f[2 * t + 1];
    }
  }

  lemma BackPairs(table: array<bv32>, base: nat, keys: seq<Subkey>)
    requires |keys| == 16 && Back(table, base, Flat(keys), 32)
    ensures PairsIn(table, base, Backwards(keys))
  {
    forall t | 0 <= t < 16
      ensures Backwards(keys)[t] == Subkey(table[base + 2 * t], table[base + 2 * t + 1])
    {
      var f, u := Flat(keys), 15 - t;
      assert f[2 * u] == keys[u].key0 && f[2 * u + 1] == keys[u].key1;
      BackAt(table, base, f, t);
    }
  }

  lemma FlatAt(keys: seq<Subkey>, t: nat)
    requires t < |keys|
    ensures |Flat(keys)| == 2 * |keys|
    ensures Flat(keys)[2 * t] == keys[t].key0 && Flat(keys)[2 * t + 1] == keys[t].key1
  {
  }

  /** One turn of the loop of des_key_schedule. */
  method NextSubkey(ghost raw: seq<bv8>, round: nat, h: Words) returns (h': Words, k: Subkey)
    requires |raw| == 8 && round < 16 && h == HalvesAfter(raw, round)
    ensures h' == HalvesAfter(raw, round + 1) && k == KeySchedule(raw)[round]
  {
    hide Chosen, Rotate28, SubkeyFrom;
    h' := Words(Rotate28(h.left, ROTATE[round]), Rotate28(h.right, ROTATE[round]));
    k := SubkeyFrom(h');
  }

  /** des_key_schedule: 32 words from `base` on. */
  method FillSchedule(raw: seq<bv8>, subkey: array<bv32>, base: nat)
    requires |raw| == 8 && base + 32 <= subkey.Length
    modifies subkey
    ensures Same(subkey, base, Flat(KeySchedule(raw)))
    ensures forall i :: 0 <= i < base || base + 32 <= i < subkey.Length ==> subkey[i] == old(subkey[i])
  {
    hide Chosen, HalvesAfter, KeySchedule, Flat, SubkeyFrom, Rotate28;
    Start(raw);
    ghost var keys := KeySchedule(raw);
    ghost var f := Flat(keys);
    var h := Chosen(raw);
    var k;
    var round := 0;
    while round < 16
      invariant 0 <= round <= 16 && h == HalvesAfter(raw, round) && Partly(subkey, base, f, 2 * round)
      invariant forall i :: 0 <= i < base || base + 32 <= i < subkey.Length ==> subkey[i] == old(subkey[i])
    {
      h, k := NextSubkey(raw, round, h);
      FlatAt(keys, round);
      StoreNext(subkey, base, 2 * round, k.key0, k.key1, f);
      round := round + 1;
    }
  }

  lemma Start(raw: seq<bv8>)
    requires |raw| == 8
    ensures Chosen(raw) == HalvesAfter(raw, 0)
    ensures |KeySchedule(raw)| == 16 && |Flat(KeySchedule(raw))| == 32
  {
  }

  /** gl_des_ctx and gl_3des_ctx: 32 or 96 words each way. */
  class Context {
    const encrypt: array<bv32>
    const decrypt: array<bv32>

    constructor (triple: bool)
      ensures encrypt.Length == decrypt.Length == (if triple then 96 else 32) && encrypt != decrypt
      ensures fresh(encrypt) && fresh(decrypt)
    {
      encrypt := new bv32[if triple then 96 else 32];
      decrypt := new bv32[if triple then 96 else 32];
    }

    /** The tables hold these subkeys, the decryption table in reverse. */
    ghost predicate Keyed(keys: seq<Subkey>)
      reads encrypt, decrypt
    {
      Pairs(encrypt[..]) == keys && Reversed(Pairs(decrypt[..]), keys)
    }

    /** gl_des_setkey. */
    method SetKey(key: seq<bv8>)
      requires |key| == 8 && encrypt.Length == decrypt.Length == 32 && encrypt != decrypt
      modifies encrypt, decrypt
      ensures Keyed(KeySchedule(key))
    {
      ghost var a := KeySchedule(key);
      FillSchedule(key, encrypt, 0);
      CombineOne(encrypt, decrypt, Flat(a));
      SamePairs(encrypt, 0, a);
      BackPairs(decrypt, 0, a);
      hide KeySchedule, Flat;
      assert Pairs(encrypt[..]) == a && Pairs(decrypt[..]) == Backwards(a);
    }

    /** gl_3des_set2keys: the first key is used again as the third. */
    method SetTwoKeys(key1: seq<bv8>, key2: seq<bv8>)
      requires |key1| == |key2| == 8 && encrypt.Length == decrypt.Length == 96 && encrypt != decrypt
      modifies encrypt, decrypt
      ensures Keyed(KeySchedule(key1) + Backwards(KeySchedule(key2)) + KeySchedule(key1))
    {
      ghost var a, b := KeySchedule(key1), KeySchedule(key2);
      FillSchedule(key1, encrypt, 0);
      FillSchedule(key2, decrypt, 32);
      CombineTwo(encrypt, decrypt, Flat(a), Flat(b));
      ThreeTables(a, b, a);
    }

    /** gl_3des_set3keys: encryption uses the second key backwards. */
    method SetThreeKeys(key1: seq<bv8>, key2: seq<bv8>, key3: seq<bv8>)
      requires |key1| == |key2| == |key3| == 8 && encrypt.Length == decrypt.Length == 96 && encrypt != decrypt
      modifies encrypt, decrypt
      ensures Keyed(KeySchedule(key1) + Backwards(KeySchedule(key2)) + KeySchedule(key3))
    {
      ghost var a, b, c := KeySchedule(key1), KeySchedule(key2), KeySchedule(key3);
      FillSchedule(key1, encrypt, 0);
      FillSchedule(key2, decrypt, 32);
      FillSchedule(key3, encrypt, 64);
      CombineThree(encrypt, decrypt, Flat(a), Flat(b), Flat(c));
      ThreeTables(a, b, c);
    }

    /** The two tables of 48 subkeys, put together. */
    lemma ThreeTables(a: seq<Subkey>, b: seq<Subkey>, c: seq<Subkey>)
      requires |a| == |b| == |c| == 16 && encrypt.Length == decrypt.Length == 96
      requires Same(encrypt, 0, Flat(a)) && Back(encrypt, 32, Flat(b), 32) && Same(encrypt, 64, Flat(c))
      requires Back(decrypt, 0, Flat(c), 32) && Same(decrypt, 32, Flat(b)) && Back(decrypt, 64, Flat(a), 32)
      ensures Keyed(a + Backwards(b) + c)
    {
      SamePairs(encrypt, 0, a);
      BackPairs(encrypt, 32, b);
      SamePairs(encrypt, 64, c);
      JoinedPairs(encrypt, a, Backwards(b), c);
      BackPairs(decrypt, 0, c);
      SamePairs(decrypt, 32, b);
      BackPairs(decrypt, 64, a);
      JoinedPairs(decrypt, Backwards(c), b, Backwards(a));
    }

    /** gl_des_ecb_crypt and gl_3des_ecb_crypt; the macro lines are written as a loop over the key pointer. */
    method EcbCrypt(from: seq<bv8>, mode: bool) returns (to: seq<bv8>)
      requires |from| == 8 && encrypt.Length % 2 == decrypt.Length % 2 == 0
      ensures to == CryptBlock(from, Pairs(if mode then decrypt[..] else encrypt[..]))
    {
      var table := if mode then decrypt else encrypt;
      ghost var keys := Pairs(table[..]);
      ghost var ts := Schedule(keys);
      hide InitialPermutation, FinalPermutation, ReadWords, WriteWords, Round, GoesLeft;
      var w := InitialPermutation(ReadWords(from));
      ghost var w0 := w;
      var i := 0;
      while 2 * i < table.Length
        invariant 0 <= i <= |ts| && w == Turns(w0, ts[..i])
      {
        TurnsNext(w0, ts, i);
        w := Round(w, GoesLeft(i), Subkey(table[2 * i], table[2 * i + 1]));
        i := i + 1;
      }
      assert ts[..i] == ts;
      to := WriteWords(FinalPermutation(Swap(w)));
    }

    /** The length that gl_des_ecb_crypt returns: it stops at a zero byte if the last byte is zero. */
    method OutputLength(to: seq<bv8>) returns (n: nat)
      requires |to| == 8
      ensures n <= 8 && (forall i :: 0 <= i < n && to[7] == 0 ==> to[i] != 0) && (n < 8 ==> to[n] == 0)
      ensures to[7] != 0 <==> n == 8
    {
      n := 8;
      if to[7] == 0 {
        n := 0;
        while to[n] != 0
          invariant n <= 7 && forall i :: 0 <= i < n ==> to[i] != 0
          decreases 7 - n
        {
          n := n + 1;
        }
      }
    }
  }

  /** Set a key, encrypt a block and decrypt the result: the block comes back. */
  method OneKeyRoundTrip(key: seq<bv8>, x: seq<bv8>) returns (z: seq<bv8>)
    requires |key| == |x| == 8
    ensures z == x
  {
    hide KeySchedule, CryptBlock, Pairs;
    ScheduleLength(key);
    var ctx := new Context(false);
    ctx.SetKey(key);
    var y := ctx.EcbCrypt(x, false);
    z := ctx.EcbCrypt(y, true);
    BlockRestored(x, Pairs(ctx.encrypt[..]), Pairs(ctx.decrypt[..]));
  }

  /** The same with three keys. */
  method ThreeKeyRoundTrip(key1: seq<bv8>, key2: seq<bv8>, key3: seq<bv8>, x: seq<bv8>) returns (z: seq<bv8>)
    requires |key1| == |key2| == |key3| == |x| == 8
    ensures z == x
  {
    hide KeySchedule, CryptBlock, Pairs;
    ScheduleLength(key1);
    ScheduleLength(key2);
    ScheduleLength(key3);
    var ctx := new Context(true);
    ctx.SetThreeKeys(key1, key2, key3);
    var y := ctx.EcbCrypt(x, false);
    z := ctx.EcbCrypt(y, true);
    BlockRestored(x, Pairs(ctx.encrypt[..]), Pairs(ctx.decrypt[..]));
  }

  lemma ScheduleLength(key: seq<bv8>)
    requires |key| == 8
    ensures |KeySchedule(key)| == 16
  {
  }

  lemma JoinedPairs(table: array<bv32>, a: seq<Subkey>, b: seq<Subkey>, c: seq<Subkey>)
    requires table.Length == 96 && PairsIn(table, 0, a) && PairsIn(table, 32, b) && PairsIn(table, 64, c)
    ensures Pairs(table[..]) == a + b + c
  {
    forall i | 0 <= i < 48
      ensures Pairs(table[..])[i] == (a + b + c)[i]
    {
      assert Pairs(table[..])[i] == Subkey(table[2 * i], table[2 * i + 1]);
      hide Pairs;
      assert 16 <= i < 32 ==> b[i - 16] == Subkey(table[32 + 2 * (i - 16)], table[32 + 2 * (i - 16) + 1]);
      assert 32 <= i ==> c[i - 32] == Subkey(table[64 + 2 * (i - 32)], table[64 + 2 * (i - 32) + 1]);
    }
  }
}
