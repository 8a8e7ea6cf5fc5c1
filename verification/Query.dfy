/**
  Query strings: http_uriencode, http_decode_uri and http_parse_query of src/http/http.cc:1593-1709 and
  RequestUri of src/downstream/request.cc:68-110.
*/
module Query {
  import opened Basics
  import opened UriEscape

  const NUL: bv8 := 0
  const SPACE: bv8 := 32
  const AMPERSAND: bv8 := 38
  const PLUS: bv8 := 43
  const EQUALS: bv8 := 61

  // ----- percent encoding -----

  predicate Unreserved(c: bv8) {
    48 <= c <= 57 || 65 <= c <= 90 || 97 <= c <= 122 || c == 45 || c == 46 || c == 95 || c == 126
  }

  function UpperHex(v: bv8): (d: bv8)
    requires v < 16
    ensures 48 <= d <= 57 || 65 <= d <= 70
  {
    if v < 10 then 48 + v else 55 + v
  }

  function EncodedOne(plus: bool, c: bv8): Bytes {
    if Unreserved(c) then [c]
    else if c == SPACE && plus then [PLUS]
    else [PERCENT, UpperHex(c >> 4), UpperHex(c & 0xf)]
  }

  function Encoded(plus: bool, s: Bytes): Bytes {
    if s == [] then [] else EncodedOne(plus, s[0]) + Encoded(plus, s[1..])
  }

  function Decoded(plus: bool, s: Bytes): Bytes {
    if s == [] then []
    else if s[0] == PLUS && plus then [SPACE] + Decoded(plus, s[1..])
    else if |s| >= 3 && s[0] == PERCENT && IsHex(s[1]) && IsHex(s[2]) then [Byte(s[1], s[2])] + Decoded(plus, s[3..])
    else [s[0]] + Decoded(plus, s[1..])
  }

  lemma {:induction false} EncodedAppend(plus: bool, s: Bytes, c: bv8)
    ensures Encoded(plus, s + [c]) == Encoded(plus, s) + EncodedOne(plus, c)
  {
    hide EncodedOne;
    if s == [] {
      assert s + [c] == [c] && [c][1..] == [];
    } else {
      EncodedAppend(plus, s[1..], c);
      assert (s + [c])[1..] == s[1..] + [c];
    }
  }

  method Encode(value: Bytes, plus: bool) returns (result: Bytes)
    ensures result == Encoded(plus, value)
  {
    hide Unreserved, UpperHex, Encoded;
    EncodedEmpty(plus);
    result := [];
    var i := 0;
    while i < |value|
      invariant 0 <= i <= |value| && result == Encoded(plus, value[..i])
    {
      var c := value[i];
      EncodedAppend(plus, value[..i], c);
      assert value[..i + 1] == value[..i] + [c];
      if Unreserved(c) {
        result := result + [c];
      } else if c == SPACE && plus {
        result := result + [PLUS];
      } else {
        result := result + [PERCENT, UpperHex(c >> 4), UpperHex(c & 0xf)];
      }
      i := i + 1;
    }
    assert value[..i] == value;
  }

  lemma EncodedEmpty(plus: bool)
    ensures Encoded(plus, []) == []
  {
  }

  /** A string's byte, with the terminator behind the last one. */
  function At(s: Bytes, i: nat): bv8
    requires i <= |s|
  {
    if i == |s| then NUL else s[i]
  }

  lemma DecodedFrom(plus: bool, s: Bytes, i: nat)
    requires i < |s|
    ensures Decoded(plus, s[i..]) ==
            if s[i] == PLUS && plus then [SPACE] + Decoded(plus, s[i + 1..])
            else if i + 3 <= |s| && s[i] == PERCENT && IsHex(s[i + 1]) && IsHex(s[i + 2])
            then [Byte(s[i + 1], s[i + 2])] + Decoded(plus, s[i + 3..])
            else [s[i]] + Decoded(plus, s[i + 1..])
  {
    hide IsHex, Byte;
    assert s[i..][1..] == s[i + 1..];
    if i + 3 <= |s| {
      assert s[i..][3..] == s[i + 3..];
    }
  }

  predicate EscapeAt(s: Bytes, i: nat) {
    i + 2 < |s| && s[i] == PERCENT && IsHex(s[i + 1]) && IsHex(s[i + 2])
  }

  /** Nothing changes exactly if there are no plus signs to read as spaces and no percent signs before two digits. */
  lemma {:induction false} DecodedUnchanged(plus: bool, s: Bytes)
    ensures |Decoded(plus, s)| <= |s|
    ensures Decoded(plus, s) == s <==> !(plus && PLUS in s) && forall i: nat :: i < |s| ==> !EscapeAt(s, i)
  {
    hide IsHex, Byte;
    if s != [] {
      assert s == [s[0]] + s[1..];
      if !(s[0] == PLUS && plus) && EscapeAt(s, 0) {
        DecodedUnchanged(plus, s[3..]);
      } else {
        DecodedUnchanged(plus, s[1..]);
        var rest := Decoded(plus, s[1..]);
        assert Decoded(plus, s)[1..] == rest;
        assert forall i: nat :: i < |s| - 1 ==> EscapeAt(s[1..], i) == EscapeAt(s, i + 1);
        assert forall i: nat :: 0 < i < |s| ==> EscapeAt(s, i) == EscapeAt(s[1..], i - 1);
      }
    }
  }

  lemma TerminatorIsNoDigit()
    ensures !IsHex(NUL)
  {
  }

  /** The two bytes after a percent sign are read without looking at the length: the terminator ends the look. */
  method Decode(value: Bytes, plus: bool) returns (result: Bytes)
    ensures result == Decoded(plus, value)
  {
    hide IsHex, Byte, Decoded;
    result := [];
    var i := 0;
    assert value[0..] == value && [] + Decoded(plus, value) == Decoded(plus, value);
    while i < |value|
      invariant 0 <= i <= |value|
      invariant result + Decoded(plus, value[i..]) == Decoded(plus, value)
    {
      var c := value[i];
      DecodedFrom(plus, value, i);
      TerminatorIsNoDigit();
      var next := i + 1;
      if c == PLUS && plus {
        c := SPACE;
      } else if c == PERCENT && IsHex(At(value, i + 1)) && IsHex(At(value, i + 2)) {
        c := Byte(value[i + 1], value[i + 2]);
        next := i + 3;
      }
      Regroup(result, [c], Decoded(plus, value[next..]));
      result := result + [c];
      i := next;
    }
    DecodedEmpty(plus, value[i..]);
  }

  lemma DecodedEmpty(plus: bool, s: Bytes)
    requires s == []
    ensures Decoded(plus, s) == []
  {
  }

  lemma UpperPair(c: bv8)
    ensures IsHex(UpperHex(c >> 4)) && IsHex(UpperHex(c & 0xf)) && Byte(UpperHex(c >> 4), UpperHex(c & 0xf)) == c
  {
  }

  /** A byte encoded with `e` comes back, unless it is a space sent as a plus sign and not read as one. */
  lemma OneReturns(e: bool, d: bool, c: bv8, rest: Bytes)
    ensures Decoded(d, EncodedOne(e, c) + rest) == [if c == SPACE && e && !d then PLUS else c] + Decoded(d, rest)
  {
    hide IsHex, Byte, UpperHex;
    UpperPair(c);
    var s := EncodedOne(e, c) + rest;
    if Unreserved(c) || (c == SPACE && e) {
      assert s[1..] == rest;
    } else {
      assert s[3..] == rest;
    }
  }

  /** Decoding undoes encoding exactly when no space goes out as a plus sign that is not read back as a space. */
  lemma {:induction false} DecodeUndoesEncode(e: bool, d: bool, s: Bytes)
    ensures Decoded(d, Encoded(e, s)) == s <==> (e && !d ==> SPACE !in s)
    ensures |Decoded(d, Encoded(e, s))| == |s|
  {
    hide EncodedOne;
    if s != [] {
      OneReturns(e, d, s[0], Encoded(e, s[1..]));
      DecodeUndoesEncode(e, d, s[1..]);
      assert s == [s[0]] + s[1..];
    }
  }

  lemma {:induction false} NoneIsEncoded(s: Bytes, c: bv8)
    requires c == AMPERSAND || c == EQUALS || c == QUESTION || c == NUL
    ensures c !in Encoded(false, s)
  {
    hide EncodedOne;
    if s != [] {
      NoneInOne(s[0], c);
      NoneIsEncoded(s[1..], c);
    }
  }

  lemma NoneInOne(b: bv8, c: bv8)
    requires c == AMPERSAND || c == EQUALS || c == QUESTION || c == NUL
    ensures c !in EncodedOne(false, b)
  {
    UpperPair(b);
    assert UpperHex(b >> 4) != c && UpperHex(b & 0xf) != c;
  }

  predicate LetterOrDigit(c: bv8) {
    48 <= c <= 57 || 65 <= c <= 90 || 97 <= c <= 122
  }

  /** What goes out: letters, digits, `-._~` and percent signs, and plus signs where they stand for spaces. */
  lemma {:induction false} EncodedBytes(plus: bool, s: Bytes, b: bv8)
    requires b in Encoded(plus, s)
    ensures LetterOrDigit(b) || b in [45, 46, 95, 126, PERCENT] || (b == PLUS && plus)
  {
    hide EncodedOne;
    if s != [] {
      if b in EncodedOne(plus, s[0]) {
        BytesOfOne(plus, s[0], b);
      } else {
        EncodedBytes(plus, s[1..], b);
      }
    }
  }

  lemma BytesOfOne(plus: bool, c: bv8, b: bv8)
    requires b in EncodedOne(plus, c)
    ensures LetterOrDigit(b) || b in [45, 46, 95, 126, PERCENT] || (b == PLUS && plus)
  {
  }

  /** Nothing is escaped exactly if every byte is a letter, a digit or one of `-._~`. */
  lemma {:induction false} EncodedUnchanged(s: Bytes)
    ensures Encoded(false, s) == s <==> forall c <- s :: LetterOrDigit(c) || c in [45, 46, 95, 126]
    ensures |Encoded(false, s)| >= |s|
  {
    if s != [] {
      EncodedUnchanged(s[1..]);
      assert s == [s[0]] + s[1..];
      var rest := Encoded(false, s[1..]);
      if LetterOrDigit(s[0]) || s[0] in [45, 46, 95, 126] {
        assert ([s[0]] + rest)[1..] == rest;
      } else {
        assert |Encoded(false, s)| >= 3 + |rest|;
      }
    }
  }

  // ----- finding and splitting -----

  /** The first position of `c`, or the length. */
  function Find(s: Bytes, c: bv8): (i: nat)
    ensures i <= |s| && c !in s[..i] && (i < |s| ==> s[i] == c)
  {
    if s == [] || s[0] == c then 0 else 1 + Find(s[1..], c)
  }

  lemma {:induction false} FindIn(s: Bytes, c: bv8, t: Bytes)
    requires c !in s
    ensures Find(s + [c] + t, c) == |s| && Find(s, c) == |s|
  {
    if s != [] {
      FindIn(s[1..], c, t);
      assert (s + [c] + t)[1..] == s[1..] + [c] + t;
    }
  }

  function Split(s: Bytes, c: bv8): (parts: seq<Bytes>)
    ensures parts != []
    decreases |s|
  {
    var i := Find(s, c);
    if i == |s| then [s] else [s[..i]] + Split(s[i + 1..], c)
  }

  lemma SplitSum(s: Bytes, c: bv8, t: Bytes)
    requires c !in s
    ensures Split(s + [c] + t, c) == [s] + Split(t, c) && Split(s, c) == [s]
  {
    FindIn(s, c, t);
    assert (s + [c] + t)[..|s|] == s && (s + [c] + t)[|s| + 1..] == t;
  }

  // ----- writing a query -----

  /** A C string ends at its first NUL. */
  function Cut(s: Bytes): Bytes {
    s[..Find(s, NUL)]
  }

  lemma CutEndsAtNul(s: Bytes)
    ensures Cut(s) <= s && NUL !in Cut(s) && (|Cut(s)| < |s| ==> s[|Cut(s)|] == NUL)
  {
  }

  function Item(key: Bytes, value: Bytes): Bytes {
    key + [EQUALS] + Encoded(false, Cut(value))
  }

  /** The items of the keys, each behind its separator. */
  function Listed(q: map<Bytes, Bytes>, order: seq<Bytes>, first: bool): Bytes
    requires forall k <- order :: k in q
  {
    if order == [] then []
    else [if first then QUESTION else AMPERSAND] + (Item(order[0], q[order[0]]) + Listed(q, order[1..], false))
  }

  lemma ItemIs(key: Bytes, value: Bytes)
    ensures key + [EQUALS] + Encoded(false, Cut(value)) == Item(key, value)
  {
  }

  /** An enumeration of the keys of a map, such as the one its iterator gives. */
  ghost predicate Enumerates(order: seq<Bytes>, q: map<Bytes, Bytes>) {
    && (forall k :: k in q <==> k in order)
    && forall i, j :: 0 <= i < j < |order| ==> order[i] != order[j]
  }

  class RequestUri {
    const baseUri: Bytes
    var query: map<Bytes, Bytes>

    constructor (base: Bytes)
      ensures baseUri == base && query == map[]
    {
      baseUri := base;
      query := map[];
    }

    /** Entries that are there already stay. */
    method AddAll(more: map<Bytes, Bytes>)
      modifies this
      ensures query.Keys == old(query).Keys + more.Keys
      ensures forall k <- query :: query[k] == if k in old(query) then old(query)[k] else more[k]
    {
      query := more + query;
    }

    method Add(name: Bytes, value: Bytes)
      modifies this
      ensures query == old(query)[name := value]
    {
      query := query[name := value];
    }

    method Uri(order: seq<Bytes>) returns (uri: Bytes)
      requires Enumerates(order, query)
      ensures uri == baseUri + Listed(query, order, true)
    {
      hide Item;
      uri := baseUri;
      var i := 0;
      assert order[0..] == order;
      while i < |order|
        invariant 0 <= i <= |order|
        invariant uri + Listed(query, order[i..], i == 0) == baseUri + Listed(query, order, true)
      {
        var key := order[i];
        var encoded := Encode(Cut(query[key]), false);
        ItemIs(key, query[key]);
        ghost var rest := Listed(query, order[i + 1..], false);
        assert order[i..][1..] == order[i + 1..];
        var mark := if i == 0 then QUESTION else AMPERSAND;
        Regroup(uri, [mark], Item(key, query[key]) + rest);
        Regroup(uri + [mark], Item(key, query[key]), rest);
        uri := uri + [mark] + (key + [EQUALS] + encoded);
        i := i + 1;
      }
    }
  }

  // ----- reading a query -----

  /** Items are taken in order up to the first without an equals sign; a key that is there already keeps its value. */
  function Collected(parts: seq<Bytes>, m: map<Bytes, Bytes>): map<Bytes, Bytes> {
    if parts == [] then m
    else
      var p := Find(parts[0], EQUALS);
      if p == |parts[0]| then m
      else
        var key := parts[0][..p];
        Collected(parts[1..], if key in m then m else m[key := Decoded(false, parts[0][p + 1..])])
  }

  function Parsed(uri: Bytes, m: map<Bytes, Bytes>): map<Bytes, Bytes> {
    var p := Find(uri, QUESTION);
    if p == |uri| then m else Collected(Split(uri[p + 1..], AMPERSAND), m)
  }

  method ParseQuery(uri: Bytes, output: map<Bytes, Bytes>) returns (r: map<Bytes, Bytes>)
    ensures r == Parsed(uri, output)
  {
    hide Split, Decoded;
    r := output;
    var pos := Find(uri, QUESTION);
    if pos == |uri| {
      return;
    }
    var parts := Split(uri[pos + 1..], AMPERSAND);
    var i := 0;
    assert parts[0..] == parts;
    while i < |parts|
      invariant 0 <= i <= |parts|
      invariant Collected(parts[i..], r) == Parsed(uri, output)
    {
      assert parts[i..][0] == parts[i] && parts[i..][1..] == parts[i + 1..];
      pos := Find(parts[i], EQUALS);
      if pos == |parts[i]| {
        break;
      }
      var key := parts[i][..pos];
      var decoded := Decode(parts[i][pos + 1..], false);
      if key !in r {
        r := r[key := decoded];
      }
      i := i + 1;
    }
  }

  /** A piece gives a value to the key before its first equals sign, unless the key has one. */
  lemma PieceTaken(key: Bytes, value: Bytes, rest: seq<Bytes>, m: map<Bytes, Bytes>)
    requires EQUALS !in key
    ensures Collected([key + [EQUALS] + value] + rest, m)
            == Collected(rest, if key in m then m else m[key := Decoded(false, value)])
  {
    hide Decoded;
    var piece := key + [EQUALS] + value;
    FindIn(key, EQUALS, value);
    assert ([piece] + rest)[1..] == rest && piece[..|key|] == key && piece[|key| + 1..] == value;
  }

  /** Reading stops at the first piece without an equals sign: it and what is behind it add nothing. */
  lemma {:induction false} StopsAtPlain(parts: seq<Bytes>, k: nat, m: map<Bytes, Bytes>)
    requires k < |parts| && EQUALS !in parts[k]
    ensures Collected(parts, m) == Collected(parts[..k], m)
  {
    hide Decoded;
    if k > 0 {
      assert parts[..k][1..] == parts[1..][..k - 1];
      var p := Find(parts[0], EQUALS);
      if p < |parts[0]| {
        var key := parts[0][..p];
        StopsAtPlain(parts[1..], k - 1, if key in m then m else m[key := Decoded(false, parts[0][p + 1..])]);
      }
    }
  }

  // ----- the round trip -----

  predicate PlainKey(k: Bytes) {
    AMPERSAND !in k && EQUALS !in k
  }

  lemma ItemRead(key: Bytes, value: Bytes)
    requires PlainKey(key)
    ensures AMPERSAND !in Item(key, value)
    ensures Find(Item(key, value), EQUALS) == |key| < |Item(key, value)|
    ensures Item(key, value)[..|key|] == key && Decoded(false, Item(key, value)[|key| + 1..]) == Cut(value)
  {
    var e := Encoded(false, Cut(value));
    NoneIsEncoded(Cut(value), AMPERSAND);
    FindIn(key, EQUALS, e);
    DecodeUndoesEncode(false, false, Cut(value));
    assert (key + [EQUALS] + e)[|key| + 1..] == e;
  }

  function Items(q: map<Bytes, Bytes>, order: seq<Bytes>): seq<Bytes>
    requires forall k <- order :: k in q
  {
    if order == [] then [] else [Item(order[0], q[order[0]])] + Items(q, order[1..])
  }

  lemma {:induction false} SplitListed(q: map<Bytes, Bytes>, order: seq<Bytes>)
    requires order != [] && forall k <- order :: k in q && PlainKey(k)
    ensures Split(Listed(q, order, true)[1..], AMPERSAND) == Items(q, order)
  {
    hide Item, PlainKey, Split;
    var item := Item(order[0], q[order[0]]);
    ItemRead(order[0], q[order[0]]);
    assert Listed(q, order, true)[1..] == item + Listed(q, order[1..], false);
    if |order| == 1 {
      assert item + [] == item;
      SplitSum(item, AMPERSAND, []);
    } else {
      var rest := order[1..];
      SplitListed(q, rest);
      SameBehindMark(q, rest);
      assert item + Listed(q, rest, false) == item + [AMPERSAND] + Listed(q, rest, true)[1..];
      SplitSum(item, AMPERSAND, Listed(q, rest, true)[1..]);
    }
  }

  lemma SameBehindMark(q: map<Bytes, Bytes>, order: seq<Bytes>)
    requires order != [] && forall k <- order :: k in q
    ensures Listed(q, order, false) == [AMPERSAND] + Listed(q, order, true)[1..]
  {
    hide Item;
  }

  /** Every value, cut at its first NUL. */
  ghost function CutAll(q: map<Bytes, Bytes>): map<Bytes, Bytes> {
    map k | k in q :: Cut(q[k])
  }

  /** The first item is read: its key keeps the value it has, or gets the one of the query. */
  lemma FirstCollected(q: map<Bytes, Bytes>, order: seq<Bytes>, m: map<Bytes, Bytes>)
    requires order != [] && order[0] in q && PlainKey(order[0]) && forall k <- order :: k in q
    ensures Collected(Items(q, order), m)
            == Collected(Items(q, order[1..]), if order[0] in m then m else m[order[0] := Cut(q[order[0]])])
  {
    hide Item, PlainKey, Cut, Decoded;
    ItemRead(order[0], q[order[0]]);
    assert Items(q, order)[1..] == Items(q, order[1..]);
  }

  lemma {:induction false} CollectedKeys(q: map<Bytes, Bytes>, order: seq<Bytes>, m: map<Bytes, Bytes>)
    requires forall k <- order :: k in q && PlainKey(k)
    ensures forall k :: k in Collected(Items(q, order), m) <==> k in m || k in order
    decreases |order|
  {
    hide Item, PlainKey, Cut, Decoded;
    if order != [] {
      FirstCollected(q, order, m);
      CollectedKeys(q, order[1..], if order[0] in m then m else m[order[0] := Cut(q[order[0]])]);
      assert order == [order[0]] + order[1..];
    }
  }

  lemma {:induction false} CollectedItems(q: map<Bytes, Bytes>, order: seq<Bytes>, m: map<Bytes, Bytes>)
    requires forall k <- order :: k in q && PlainKey(k)
    requires forall i, j :: 0 <= i < j < |order| ==> order[i] != order[j]
    ensures forall k <- Collected(Items(q, order), m) ::
              Collected(Items(q, order), m)[k] == if k in m then m[k] else if k in q then Cut(q[k]) else []
    decreases |order|
  {
    hide Item, PlainKey, Cut, Decoded, Collected, Items;
    CollectedKeys(q, order, m);
    if order == [] {
      NoItems(q, order, m);
    } else {
      FirstCollected(q, order, m);
      var next := if order[0] in m then m else m[order[0] := Cut(q[order[0]])];
      CollectedItems(q, order[1..], next);
      assert Collected(Items(q, order), m) == Collected(Items(q, order[1..]), next);
      CollectedKeys(q, order[1..], next);
    }
  }

  /** What is read behind the question mark is the items, one by one. */
  lemma ParsedListed(base: Bytes, q: map<Bytes, Bytes>, order: seq<Bytes>, m: map<Bytes, Bytes>)
    requires QUESTION !in base && forall k <- order :: k in q && PlainKey(k)
    ensures Parsed(base + Listed(q, order, true), m) == Collected(Items(q, order), m)
  {
    hide Item, PlainKey, Cut, Collected, Split;
    if order == [] {
      FindIn(base, QUESTION, []);
      assert base + [] == base;
      NoItems(q, order, m);
    } else {
      var tail := Listed(q, order, true)[1..];
      FindIn(base, QUESTION, tail);
      assert base + Listed(q, order, true) == base + [QUESTION] + tail;
      assert (base + [QUESTION] + tail)[|base| + 1..] == tail;
      SplitListed(q, order);
    }
  }

  lemma NoItems(q: map<Bytes, Bytes>, order: seq<Bytes>, m: map<Bytes, Bytes>)
    requires order == []
    ensures Collected(Items(q, order), m) == m
  {
  }

  /**
    Parsing the uri gives back the query, its values cut at their first NUL, under the entries that were there before.
  */
  lemma ParseUndoesUri(base: Bytes, q: map<Bytes, Bytes>, order: seq<Bytes>, m: map<Bytes, Bytes>)
    requires QUESTION !in base && Enumerates(order, q) && forall k <- q :: PlainKey(k)
    ensures Parsed(base + Listed(q, order, true), m) == CutAll(q) + m
  {
    hide Item, PlainKey, Cut, Collected, Split, Parsed, Listed, Items;
    ParsedListed(base, q, order, m);
    CollectedKeys(q, order, m);
    CollectedItems(q, order, m);
  }

  lemma CutKeeps(s: Bytes)
    ensures Cut(s) == s <==> NUL !in s
  {
  }

  /** The query comes back exactly when no value holds a NUL. */
  lemma QueryReturns(base: Bytes, q: map<Bytes, Bytes>, order: seq<Bytes>)
    requires QUESTION !in base && Enumerates(order, q) && forall k <- q :: PlainKey(k)
    ensures Parsed(base + Listed(q, order, true), map[]) == q <==> forall k <- q :: NUL !in q[k]
  {
    hide PlainKey, Cut, Parsed;
    ParseUndoesUri(base, q, order, map[]);
    assert CutAll(q) + map[] == CutAll(q);
    forall k | k in q ensures Cut(q[k]) == q[k] <==> NUL !in q[k] {
      CutKeeps(q[k]);
    }
    if forall k <- q :: NUL !in q[k] {
      assert CutAll(q) == q;
    } else {
      var k :| k in q && NUL in q[k];
      assert CutAll(q)[k] != q[k];
    }
  }

  /** A value of a single NUL comes back empty, whatever its key and the part before the query. */
  lemma NulIsLost(base: Bytes, key: Bytes)
    requires QUESTION !in base && PlainKey(key)
    ensures Parsed(base + Listed(map[key := [NUL]], [key], true), map[]) == map[key := []] != map[key := [NUL]]
  {
    hide PlainKey, Parsed, Listed;
    var q: map<Bytes, Bytes> := map[key := [NUL]];
    ParseUndoesUri(base, q, [key], map[]);
    assert CutAll(q) + map[] == map[key := []];
    assert q[key] == [NUL];
  }
}
