/**
  The copying loops that build the subkey tables of src/core/shs_math.cc, for words of any type.
*/
module PairTables {

  /** Place `j` of 32 words whose pairs run backwards. */
  function Mirror(j: int): int {
    if j % 2 == 0 then 30 - j else 32 - j
  }

  /** The words of `f` are in the table from `base` on. */
  ghost predicate Same<T>(t: array<T>, base: nat, f: seq<T>)
    reads t
  {
    |f| == 32 && base + 32 <= t.Length && forall j :: 0 <= j < 32 ==> t[base + j] == f[j]
  }

  /** The first `n` words from `base` on are those of `f` with the pairs backwards. */
  ghost predicate Back<T>(t: array<T>, base: nat, f: seq<T>, n: nat)
    reads t
  {
    |f| == 32 && base + 32 <= t.Length && n <= 32 && forall j :: 0 <= j < n ==> t[base + j] == f[Mirror(j)]
  }

  lemma BackAt<T>(t: array<T>, base: nat, f: seq<T>, u: nat)
    requires Back(t, base, f, 32) && u < 16
    ensures t[base + 2 * u] == f[30 - 2 * u] && t[base + 2 * u + 1] == f[31 - 2 * u]
  {
    assert Mirror(2 * u) == 30 - 2 * u && Mirror(2 * u + 1) == 31 - 2 * u;
    assert t[base + (2 * u + 1)] == f[31 - 2 * u];
  }

  /** Two words are written. */
  method Store<T>(t: array<T>, at: nat, x: T, y: T)
    requires at + 1 < t.Length
    modifies t
    ensures t[at] == x && t[at + 1] == y
    ensures forall i :: 0 <= i < t.Length && i != at && i != at + 1 ==> t[i] == old(t[i])
  {
    t[at] := x;
    t[at + 1] := y;
  }

  /** The first `n` words of `f` are in the table from `base` on. */
  ghost predicate Partly<T>(t: array<T>, base: nat, f: seq<T>, n: nat)
    reads t
  {
    |f| == 32 && n <= 32 && base + 32 <= t.Length && forall j :: 0 <= j < n ==> t[base + j] == f[j]
  }

  /** Two more words. */
  method StoreNext<T>(t: array<T>, base: nat, n: nat, x: T, y: T, ghost f: seq<T>)
    requires Partly(t, base, f, n) && n + 1 < 32 && x == f[n] && y == f[n + 1]
    modifies t
    ensures Partly(t, base, f, n + 2)
    ensures forall i :: 0 <= i < base || base + 32 <= i < t.Length ==> t[i] == old(t[i])
  {
    Store(t, base + n, x, y);
  }

  /** The loop of gl_des_setkey: lines 430-434. */
  method CombineOne<T>(e: array<T>, d: array<T>, ghost a: seq<T>)
    requires e.Length == d.Length == 32 && e != d && Same(e, 0, a)
    modifies d
    ensures Same(e, 0, a) && Back(d, 0, a, 32)
  {
    var i := 0;
    while i < 32
      invariant 0 <= i <= 32 && i % 2 == 0
      invariant Same(e, 0, a) && Back(d, 0, a, i)
    {
      d[i] := e[30 - i];
      d[i + 1] := e[31 - i];
      i := i + 2;
    }
  }

  /** The loop of gl_3des_set2keys: lines 487-499. */
  method CombineTwo<T>(e: array<T>, d: array<T>, ghost a: seq<T>, ghost b: seq<T>)
    requires e.Length == d.Length == 96 && e != d && Same(e, 0, a) && Same(d, 32, b)
    modifies e, d
    ensures Same(e, 0, a) && Back(e, 32, b, 32) && Same(e, 64, a)
    ensures Back(d, 0, a, 32) && Same(d, 32, b) && Back(d, 64, a, 32)
  {
    var i := 0;
    while i < 32
      invariant 0 <= i <= 32 && i % 2 == 0
      invariant Same(e, 0, a) && Same(d, 32, b) && Back(d, 0, a, i) && Back(e, 32, b, i) && Back(d, 64, a, i)
      invariant forall j :: 64 <= j < 64 + i ==> e[j] == a[j - 64]
    {
      assert Mirror(i) == 30 - i && Mirror(i + 1) == 31 - i;
      hide Mirror;
      Store(d, i, e[30 - i], e[31 - i]);
      Store(e, i + 32, d[62 - i], d[63 - i]);
      Store(e, i + 64, e[i], e[i + 1]);
      Store(d, i + 64, d[i], d[i + 1]);
      i := i + 2;
    }
  }

  /** The loop of gl_3des_set3keys: lines 512-521. */
  method CombineThree<T>(e: array<T>, d: array<T>, ghost a: seq<T>, ghost b: seq<T>, ghost c: seq<T>)
    requires e.Length == d.Length == 96 && e != d && Same(e, 0, a) && Same(d, 32, b) && Same(e, 64, c)
    modifies e, d
    ensures Same(e, 0, a) && Back(e, 32, b, 32) && Same(e, 64, c)
    ensures Back(d, 0, c, 32) && Same(d, 32, b) && Back(d, 64, a, 32)
  {
    var i := 0;
    while i < 32
      invariant 0 <= i <= 32 && i % 2 == 0
      invariant Same(e, 0, a) && Same(d, 32, b) && Same(e, 64, c)
      invariant Back(d, 0, c, i) && Back(e, 32, b, i) && Back(d, 64, a, i)
    {
      assert Mirror(i) == 30 - i && Mirror(i + 1) == 31 - i;
      hide Mirror;
      Store(d, i, e[94 - i], e[95 - i]);
      Store(e, i + 32, d[62 - i], d[63 - i]);
      Store(d, i + 64, e[30 - i], e[31 - i]);
      i := i + 2;
    }
  }
}
