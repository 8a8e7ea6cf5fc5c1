/**
  List operations by value: what the intrusive lists of src/core/shs_queue.h compute.
*/
module Lists {

  function IndexOf<T(==)>(s: seq<T>, x: T): (i: nat)
    requires x in s
    ensures i < |s| && s[i] == x
    ensures forall j :: 0 <= j < i ==> s[j] != x
  {
    if s[0] == x then 0 else 1 + IndexOf(s[1..], x)
  }

  ghost predicate Unique<T>(s: seq<T>) {
    forall i, j :: 0 <= i < j < |s| ==> s[i] != s[j]
  }

  /** queue_insert_after. */
  function InsertAfter<T(==)>(s: seq<T>, x: T, y: T): seq<T>
    requires x in s
  {
    var i := IndexOf(s, x);
    s[..i + 1] + [y] + s[i + 1..]
  }

  /** queue_insert_before. */
  function InsertBefore<T(==)>(s: seq<T>, x: T, y: T): seq<T>
    requires x in s
  {
    var i := IndexOf(s, x);
    s[..i] + [y] + s[i..]
  }

  /** queue_remove. */
  function Remove<T(==)>(s: seq<T>, x: T): seq<T>
    requires x in s
  {
    var i := IndexOf(s, x);
    s[..i] + s[i + 1..]
  }

  lemma RemoveMembers<T>(s: seq<T>, x: T)
    requires x in s && Unique(s)
    ensures Unique(Remove(s, x))
    ensures forall y :: y in Remove(s, x) <==> y in s && y != x
  {
    var i := IndexOf(s, x);
    var r := Remove(s, x);
    forall y | y in s && y != x
      ensures y in r
    {
      var j := IndexOf(s, y);
      assert r[if j < i then j else j - 1] == y;
    }
  }

  lemma IndexIs<T>(s: seq<T>, i: nat)
    requires Unique(s) && i < |s|
    ensures IndexOf(s, s[i]) == i
  {
  }

  lemma InsertAfterAt<T>(s: seq<T>, i: nat, y: T)
    requires Unique(s) && i < |s|
    ensures s == s[..i] + [s[i]] + s[i + 1..]
    ensures InsertAfter(s, s[i], y) == s[..i] + [s[i], y] + s[i + 1..]
    ensures |InsertAfter(s, s[i], y)| == |s| + 1 && InsertAfter(s, s[i], y)[i] == s[i]
  {
    IndexIs(s, i);
  }

  lemma RemoveNext<T>(s: seq<T>, i: nat)
    requires Unique(s) && i + 1 < |s|
    ensures s == s[..i] + [s[i], s[i + 1]] + s[i + 2..]
    ensures Remove(s, s[i + 1]) == s[..i] + [s[i]] + s[i + 2..]
    ensures |Remove(s, s[i + 1])| == |s| - 1 && Remove(s, s[i + 1])[i] == s[i]
  {
    IndexIs(s, i + 1);
  }
}
