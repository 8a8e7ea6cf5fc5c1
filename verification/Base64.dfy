/**
  string_base64_encode and string_base64_decode of src/core/shs_string.cc:976-1086.
*/
module Base64 {
  import opened Basics

  datatype Result = Ok(bytes: Bytes) | Error

  const PAD: bv8 := 61

  // ----- the alphabet -----

  /** A-Z, a-z, 0-9, + and / stand for the values 0 to 63. */
  function Letter(v: bv8): bv8
    requires v < 64
  {
    if v < 26 then v + 65 else if v < 52 then v + 71 else if v < 62 then v - 4 else if v == 62 then 43 else 47
  }

  /** 77 marks the bytes outside the alphabet. */
  function Value(c: bv8): bv8 {
    if 65 <= c <= 90 then c - 65
    else if 97 <= c <= 122 then c - 71
    else if 48 <= c <= 57 then c + 4
    else if c == 43 then 62
    else if c == 47 then 63
    else 77
  }

  /** Table 1 of RFC 4648: upper case, lower case, decimal digits, plus sign and slash. */
  lemma LettersOfAlphabet(v: bv8)
    requires v < 64
    ensures v < 26 ==> Letter(v) == 'A' as bv8 + v
    ensures 26 <= v < 52 ==> Letter(v) == 'a' as bv8 + (v - 26)
    ensures 52 <= v < 62 ==> Letter(v) == '0' as bv8 + (v - 52)
    ensures Letter(62) == '+' as bv8 && Letter(63) == '/' as bv8
  {
  }

  lemma ValueOfLetter(v: bv8)
    requires v < 64
    ensures Value(Letter(v)) == v && Letter(v) != PAD
  {
  }

  lemma LetterOfValue(c: bv8)
    requires Value(c) != 77
    ensures Value(c) < 64 && Letter(Value(c)) == c
  {
  }

  // ----- the digits of three bytes, and the bytes of four digits -----

  function Digit0(a: bv8): bv8 { Letter((a >> 2) & 0x3f) }
  function Digit1(a: bv8, b: bv8): bv8 { Letter(((a & 3) << 4) | (b >> 4)) }
  function Digit2(b: bv8, c: bv8): bv8 { Letter(((b & 0x0f) << 2) | (c >> 6)) }
  function Digit3(c: bv8): bv8 { Letter(c & 0x3f) }

  function Byte0(p: bv8, q: bv8): bv8 { (Value(p) << 2) | (Value(q) >> 4) }
  function Byte1(q: bv8, r: bv8): bv8 { (Value(q) << 4) | (Value(r) >> 2) }
  function Byte2(r: bv8, s: bv8): bv8 { (Value(r) << 6) | Value(s) }

  /** Four letters read as digits base 64. */
  function FromDigits(p: bv8, q: bv8, r: bv8, s: bv8): bv32 {
    (Value(p) as bv32 << 18) | (Value(q) as bv32 << 12) | (Value(r) as bv32 << 6) | Value(s) as bv32
  }

  /** Three bytes read as digits base 256. */
  function FromBytes(a: bv8, b: bv8, c: bv8): bv32 {
    (a as bv32 << 16) | (b as bv32 << 8) | c as bv32
  }

  lemma DigitValues(a: bv8, b: bv8, c: bv8)
    ensures Value(Digit0(a)) == a >> 2 && Value(Digit1(a, b)) == ((a & 3) << 4) | (b >> 4)
    ensures Value(Digit2(b, c)) == ((b & 0x0f) << 2) | (c >> 6) && Value(Digit3(c)) == c & 0x3f
    ensures Digit0(a) != PAD && Digit1(a, b) != PAD && Digit2(b, c) != PAD && Digit3(c) != PAD
    ensures Value(Digit0(a)) != 77 && Value(Digit1(a, b)) != 77 && Value(Digit2(b, c)) != 77 && Value(Digit3(c)) != 77
  {
    ValueOfLetter((a >> 2) & 0x3f);
    ValueOfLetter(((a & 3) << 4) | (b >> 4));
    ValueOfLetter(((b & 0x0f) << 2) | (c >> 6));
    ValueOfLetter(c & 0x3f);
  }

  /** The four letters of three bytes denote the same 24-bit number, and give the bytes back. */
  lemma SameNumber(a: bv8, b: bv8, c: bv8)
    ensures FromDigits(Digit0(a), Digit1(a, b), Digit2(b, c), Digit3(c)) == FromBytes(a, b, c)
    ensures Byte0(Digit0(a), Digit1(a, b)) == a
    ensures Byte1(Digit1(a, b), Digit2(b, c)) == b
    ensures Byte2(Digit2(b, c), Digit3(c)) == c
  {
    hide Value, Digit0, Digit1, Digit2, Digit3;
    DigitValues(a, b, c);
  }

  // ----- encoding -----

  /** Three bytes at a time; a rest of one or two bytes is filled with zero bits and marked by padding. */
  function Encoded(s: Bytes): Bytes {
    if |s| > 2 then [Digit0(s[0]), Digit1(s[0], s[1]), Digit2(s[1], s[2]), Digit3(s[2])] + Encoded(s[3..])
    else if |s| == 2 then [Digit0(s[0]), Digit1(s[0], s[1]), Digit2(s[1], 0), PAD]
    else if |s| == 1 then [Digit0(s[0]), Digit1(s[0], 0), PAD, PAD]
    else []
  }

  lemma PaddedDigits(a: bv8)
    ensures Letter((a & 3) << 4) == Digit1(a, 0) && Letter((a & 0x0f) << 2) == Digit2(a, 0)
  {
    assert ((a & 3) << 4) | (0 >> 4) == (a & 3) << 4;
    assert ((a & 0x0f) << 2) | (0 >> 6) == (a & 0x0f) << 2;
  }

  method Encode(src: Bytes) returns (dst: Bytes)
    ensures dst == Encoded(src)
  {
    hide Digit0, Digit1, Digit2, Digit3;
    dst := [];
    var s := 0;
    while |src| - s > 2
      invariant 0 <= s <= |src|
      invariant dst + Encoded(src[s..]) == Encoded(src)
    {
      var four := [Digit0(src[s]), Digit1(src[s], src[s + 1]), Digit2(src[s + 1], src[s + 2]), Digit3(src[s + 2])];
      assert dst + Encoded(src[s..]) == (dst + four) + Encoded(src[s + 3..]) by {
        assert src[s..][3..] == src[s + 3..];
      }
      dst := dst + four;
      s := s + 3;
    }
    var len := |src| - s;
    if len != 0 {
      PaddedDigits(src[|src| - 1]);
      dst := dst + [Digit0(src[s])];
      if len == 1 {
        dst := dst + [Letter((src[s] & 3) << 4), PAD];
      } else {
        dst := dst + [Digit1(src[s], src[s + 1]), Letter((src[s + 1] & 0x0f) << 2)];
      }
      dst := dst + [PAD];
    }
  }

  // ----- decoding -----

  /** The bytes before the first padding byte. */
  function Body(t: Bytes): Bytes {
    if t == [] || t[0] == PAD then [] else [t[0]] + Body(t[1..])
  }

  lemma {:induction false} BodyEndsAtPadding(t: Bytes)
    ensures Body(t) <= t && PAD !in Body(t) && (|Body(t)| < |t| ==> t[|Body(t)|] == PAD)
  {
    if t != [] && t[0] != PAD { BodyEndsAtPadding(t[1..]); }
  }

  ghost predicate InAlphabet(t: Bytes) {
    forall i :: 0 <= i < |t| ==> Value(t[i]) != 77
  }

  ghost predicate Wellformed(t: Bytes) {
    InAlphabet(Body(t)) && |Body(t)| % 4 != 1
  }

  /** Four letters at a time; the zero bits of a rest of two or three letters are dropped. */
  function Decoded(t: Bytes): Bytes {
    if |t| > 3 then [Byte0(t[0], t[1]), Byte1(t[1], t[2]), Byte2(t[2], t[3])] + Decoded(t[4..])
    else if |t| == 3 then [Byte0(t[0], t[1]), Byte1(t[1], t[2])]
    else if |t| == 2 then [Byte0(t[0], t[1])]
    else []
  }

  /** The letters before the padding are counted and checked. */
  method Scan(src: Bytes) returns (ok: bool, len: nat)
    ensures ok <==> InAlphabet(Body(src))
    ensures ok ==> len <= |src| && Body(src) == src[..len]
  {
    len := 0;
    assert src[0..] == src && src[..0] + Body(src) == Body(src);
    while len < |src|
      invariant 0 <= len <= |src|
      invariant Body(src) == src[..len] + Body(src[len..])
      invariant forall i :: 0 <= i < len ==> Value(src[i]) != 77
    {
      if src[len] == PAD {
        break;
      }
      assert src[len..][1..] == src[len + 1..];
      assert Body(src) == src[..len] + ([src[len]] + Body(src[len + 1..]));
      if Value(src[len]) == 77 {
        assert Body(src)[len] == src[len];
        return false, len;
      }
      assert src[..len] + ([src[len]] + Body(src[len + 1..])) == src[..len + 1] + Body(src[len + 1..]);
      len := len + 1;
    }
    assert Body(src) == src[..len];
    ok := true;
  }

  function Three(t: Bytes, s: nat): Bytes
    requires s + 4 <= |t|
  {
    [Byte0(t[s], t[s + 1]), Byte1(t[s + 1], t[s + 2]), Byte2(t[s + 2], t[s + 3])]
  }

  lemma DecodedFrom(d: Bytes, t: Bytes, s: nat)
    requires s + 4 <= |t|
    ensures d + Decoded(t[s..]) == (d + Three(t, s)) + Decoded(t[s + 4..])
  {
    hide Byte0, Byte1, Byte2;
    assert t[s..][4..] == t[s + 4..];
  }

  lemma DecodedEnd(t: Bytes, s: nat)
    requires s <= |t| < s + 4
    ensures Decoded(t[s..]) == (if s + 1 < |t| then [Byte0(t[s], t[s + 1])] else [])
                               + (if s + 2 < |t| then [Byte1(t[s + 1], t[s + 2])] else [])
  {
    hide Byte0, Byte1, Byte2;
  }

  /** The letters before the padding are decoded. */
  method DecodeLetters(t: Bytes) returns (d: Bytes)
    ensures d == Decoded(t)
  {
    hide Byte0, Byte1, Byte2, Decoded;
    var s, len := 0, |t|;
    d := [];
    assert t[0..] == t && d + Decoded(t) == Decoded(t);
    while len > 3
      invariant 0 <= s && 0 <= len && s + len == |t|
      invariant d + Decoded(t[s..]) == Decoded(t)
    {
      DecodedFrom(d, t, s);
      d := d + [Byte0(t[s], t[s + 1]), Byte1(t[s + 1], t[s + 2]), Byte2(t[s + 2], t[s + 3])];
      s := s + 4;
      len := len - 4;
    }
    DecodedEnd(t, s);
    if len > 1 {
      d := d + [Byte0(t[s], t[s + 1])];
    }
    if len > 2 {
      d := d + [Byte1(t[s + 1], t[s + 2])];
    }
  }

  /** Decoding fails exactly on a byte outside the alphabet before the padding, or on a single letter left over. */
  method Decode(src: Bytes) returns (r: Result)
    ensures r == if Wellformed(src) then Ok(Decoded(Body(src))) else Error
  {
    hide Value, Decoded;
    var ok, len := Scan(src);
    if !ok || len % 4 == 1 {
      return Error;
    }
    var d := DecodeLetters(src[..len]);
    r := Ok(d);
  }

  // ----- the round trip -----

  lemma {:induction false} BodyOfSum(d: Bytes, t: Bytes)
    requires forall i :: 0 <= i < |d| ==> d[i] != PAD
    ensures Body(d + t) == d + Body(t)
  {
    if d == [] {
      assert d + t == t;
    } else {
      BodyOfSum(d[1..], t);
      assert (d + t)[1..] == d[1..] + t;
    }
  }

  /** The letters of an encoded string, without the padding. */
  function Letters(s: Bytes): Bytes {
    if |s| > 2 then [Digit0(s[0]), Digit1(s[0], s[1]), Digit2(s[1], s[2]), Digit3(s[2])] + Letters(s[3..])
    else if |s| == 2 then [Digit0(s[0]), Digit1(s[0], s[1]), Digit2(s[1], 0)]
    else if |s| == 1 then [Digit0(s[0]), Digit1(s[0], 0)]
    else []
  }

  lemma {:induction false} BodyIsLetters(s: Bytes)
    ensures Body(Encoded(s)) == Letters(s) && |Encoded(s)| == (|s| + 2) / 3 * 4
  {
    hide Value, Digit0, Digit1, Digit2, Digit3;
    if |s| > 2 {
      BodyIsLetters(s[3..]);
      DigitValues(s[0], s[1], s[2]);
      BodyOfSum([Digit0(s[0]), Digit1(s[0], s[1]), Digit2(s[1], s[2]), Digit3(s[2])], Encoded(s[3..]));
    } else if |s| == 2 {
      DigitValues(s[0], s[1], 0);
      BodyOfSum(Letters(s), [PAD]);
      assert Encoded(s) == Letters(s) + [PAD];
    } else if |s| == 1 {
      DigitValues(s[0], 0, 0);
      BodyOfSum(Letters(s), [PAD, PAD]);
      assert Encoded(s) == Letters(s) + [PAD, PAD];
    }
  }

  lemma {:induction false} LettersAreInAlphabet(s: Bytes)
    ensures InAlphabet(Letters(s)) && |Letters(s)| % 4 != 1
  {
    hide Value, Digit0, Digit1, Digit2, Digit3;
    if |s| > 2 {
      LettersAreInAlphabet(s[3..]);
      DigitValues(s[0], s[1], s[2]);
      assert InAlphabet([Digit0(s[0]), Digit1(s[0], s[1]), Digit2(s[1], s[2]), Digit3(s[2])]);
    } else if |s| > 0 {
      DigitValues(s[0], if |s| == 2 then s[1] else 0, 0);
    }
  }

  lemma {:induction false} LettersDecode(s: Bytes)
    ensures Decoded(Letters(s)) == s
  {
    hide Value, Digit0, Digit1, Digit2, Digit3;
    if |s| > 2 {
      LettersDecode(s[3..]);
      SameNumber(s[0], s[1], s[2]);
      assert Letters(s)[4..] == Letters(s[3..]);
      assert s == [s[0], s[1], s[2]] + s[3..];
    } else if |s| == 2 {
      SameNumber(s[0], s[1], 0);
    } else if |s| == 1 {
      SameNumber(s[0], 0, 0);
    }
  }

  /** Decoding undoes encoding, for every byte string. */
  lemma DecodeUndoesEncode(s: Bytes)
    ensures Wellformed(Encoded(s)) && Decoded(Body(Encoded(s))) == s
  {
    BodyIsLetters(s);
    LettersAreInAlphabet(s);
    LettersDecode(s);
  }

  // ----- the other way round -----

  /** Four letters are the digits of the three bytes they stand for. */
  lemma LettersReturn(p: bv8, q: bv8, r: bv8, s: bv8)
    requires Value(p) != 77 && Value(q) != 77 && Value(r) != 77 && Value(s) != 77
    ensures Digit0(Byte0(p, q)) == p && Digit1(Byte0(p, q), Byte1(q, r)) == q
    ensures Digit2(Byte1(q, r), Byte2(r, s)) == r && Digit3(Byte2(r, s)) == s
  {
    hide Value, Letter;
    LetterOfValue(p);
    LetterOfValue(q);
    LetterOfValue(r);
    LetterOfValue(s);
  }

  /** Of a rest of two or three letters, the last one is a digit of the bytes exactly when its unused bits are zero. */
  lemma RestReturns(p: bv8, q: bv8, r: bv8)
    requires Value(p) != 77 && Value(q) != 77 && Value(r) != 77
    ensures Digit0(Byte0(p, q)) == p && Digit1(Byte0(p, q), Byte1(q, r)) == q
    ensures Digit1(Byte0(p, q), 0) == q <==> Value(q) & 0xf == 0
    ensures Digit2(Byte1(q, r), 0) == r <==> Value(r) & 3 == 0
  {
    hide Value, Letter;
    LetterOfValue(p);
    LetterOfValue(q);
    LetterOfValue(r);
    DigitValues(Byte0(p, q), 0, 0);
    DigitValues(0, Byte1(q, r), 0);
  }

  /** The bits of the last letter that belong to no byte are zero. */
  predicate UnusedAreZero(b: Bytes) {
    && (|b| % 4 == 2 ==> Value(b[|b| - 1]) & 0xf == 0)
    && (|b| % 4 == 3 ==> Value(b[|b| - 1]) & 3 == 0)
  }

  lemma LettersOfThree(a: bv8, b: bv8, c: bv8, rest: Bytes)
    ensures Letters([a, b, c] + rest) == [Digit0(a), Digit1(a, b), Digit2(b, c), Digit3(c)] + Letters(rest)
  {
    hide Digit0, Digit1, Digit2, Digit3;
    assert ([a, b, c] + rest)[3..] == rest;
  }

  lemma DecodedFour(b: Bytes)
    requires |b| > 3
    ensures Decoded(b) == [Byte0(b[0], b[1]), Byte1(b[1], b[2]), Byte2(b[2], b[3])] + Decoded(b[4..])
  {
    hide Byte0, Byte1, Byte2;
  }

  lemma FourLetters(b: Bytes)
    requires InAlphabet(b) && |b| > 3
    ensures Letters(Decoded(b)) == b[..4] + Letters(Decoded(b[4..]))
  {
    hide Value, Digit0, Digit1, Digit2, Digit3, Byte0, Byte1, Byte2, Letters, Decoded;
    LettersReturn(b[0], b[1], b[2], b[3]);
    DecodedFour(b);
    LettersOfThree(Byte0(b[0], b[1]), Byte1(b[1], b[2]), Byte2(b[2], b[3]), Decoded(b[4..]));
    assert [b[0], b[1], b[2], b[3]] == b[..4];
  }

  lemma ShortLetters(b: Bytes)
    requires InAlphabet(b) && 1 < |b| < 4
    ensures |Letters(Decoded(b))| == |b|
    ensures Letters(Decoded(b)) == b <==> UnusedAreZero(b)
  {
    hide Value, Digit0, Digit1, Digit2, Digit3, Byte0, Byte1, Byte2;
    RestReturns(b[0], b[1], b[|b| - 1]);
  }

  lemma {:induction false} LettersOfDecoded(b: Bytes)
    requires InAlphabet(b) && |b| % 4 != 1
    ensures |Letters(Decoded(b))| == |b|
    ensures Letters(Decoded(b)) == b <==> UnusedAreZero(b)
  {
    hide Value, Digit0, Digit1, Digit2, Digit3, Byte0, Byte1, Byte2;
    if |b| > 3 {
      FourLetters(b);
      LettersOfDecoded(b[4..]);
      assert b == b[..4] + b[4..];
      assert |b| > 4 ==> b[|b| - 1] == b[4..][|b[4..]| - 1];
    } else if |b| > 0 {
      ShortLetters(b);
    }
  }

  function Padding(letters: nat): Bytes {
    if letters % 4 == 2 then [PAD, PAD] else if letters % 4 == 3 then [PAD] else []
  }

  lemma {:induction false} EncodedIsPadded(s: Bytes)
    ensures Encoded(s) == Letters(s) + Padding(|Letters(s)|)
  {
    hide Digit0, Digit1, Digit2, Digit3;
    if |s| > 2 { EncodedIsPadded(s[3..]); }
  }

  lemma {:induction false} BodyIsPrefix(t: Bytes)
    ensures |Body(t)| <= |t| && t[..|Body(t)|] == Body(t)
  {
    if t != [] && t[0] != PAD {
      BodyIsPrefix(t[1..]);
      assert t == [t[0]] + t[1..];
    }
  }

  /** Encoding undoes decoding exactly for the texts that are padded to whole groups and have no unused bit set. */
  lemma EncodeUndoesDecode(t: Bytes)
    requires Wellformed(t)
    ensures Encoded(Decoded(Body(t))) == t <==> UnusedAreZero(Body(t)) && t == Body(t) + Padding(|Body(t)|)
  {
    hide Body, Decoded, Letters, Encoded, UnusedAreZero;
    var b := Body(t);
    LettersOfDecoded(b);
    EncodedIsPadded(Decoded(b));
    BodyIsPrefix(t);
    var l := Letters(Decoded(b));
    assert t == b + t[|b|..];
    assert (l + Padding(|b|))[..|b|] == l && (l + Padding(|b|))[|b|..] == Padding(|b|);
  }
}
