/**
  string_escape_uri and string_unescape_uri of src/core/shs_string.cc:1229-1515.
*/
module UriEscape {
  import opened Basics

  const PERCENT: bv8 := 37
  const QUESTION: bv8 := 63

  /** The escape tables, in the order of the types 0 to 5. */
  datatype Kind = Uri | Args | Html | Refresh | Memcached | MailAuth

  // ----- the bit tables -----

  /** The table word that holds the bits of 32 byte values. */
  function Word(k: Kind, i: bv8): bv32 {
    if i == 0 then 0xffff_ffff
    else if i == 1 then
      match k
      case Uri => 0x8000_0029
      case Args => 0x8000_0829
      case Html => 0x0000_00ad
      case Refresh => 0x0000_0085
      case Memcached => 0x0000_0021
      case MailAuth => 0x0000_0021
    else if k == Memcached || k == MailAuth || i == 2 then 0
    else if i == 3 then 0x8000_0000
    else 0xffff_ffff
  }

  predicate Escapes(k: Kind, c: bv8) {
    Word(k, c >> 5) & ((1 as bv32) << (c & 0x1f)) != 0
  }

  /** The bytes each table covers: the comments of the tables agree, except that Refresh leaves out the percent sign. */
  predicate Covered(k: Kind, c: bv8) {
    || c <= 32
    || (c >= 127 && !k.Memcached? && !k.MailAuth?)
    || (c == PERCENT && !k.Refresh?)
    || (c == QUESTION && (k.Uri? || k.Args?))
    || (c == 35 && (k.Uri? || k.Args? || k.Html?))
    || (c == 43 && k.Args?)
    || ((c == 34 || c == 39) && (k.Html? || k.Refresh?))
  }

  lemma TablesCover(k: Kind, c: bv8)
    ensures Escapes(k, c) <==> Covered(k, c)
  {
  }

  // ----- hexadecimal digits -----

  function HexDigit(v: bv8): (d: bv8)
    requires v < 16
    ensures 48 <= d <= 57 || 97 <= d <= 102
  {
    if v < 10 then 48 + v else 87 + v
  }

  predicate IsHex(c: bv8) {
    48 <= c <= 57 || 97 <= c | 0x20 <= 102
  }

  function HexValue(c: bv8): bv8 {
    if 48 <= c <= 57 then c - 48 else (c | 0x20) - 87
  }

  function High(c: bv8): bv8 { HexDigit(c >> 4) }
  function Low(c: bv8): bv8 { HexDigit(c & 0xf) }

  /** The byte of two hexadecimal digits. */
  function Byte(h: bv8, l: bv8): bv8 { (HexValue(h) << 4) + HexValue(l) }

  lemma HexPair(c: bv8)
    ensures IsHex(High(c)) && IsHex(Low(c)) && Byte(High(c), Low(c)) == c
  {
  }

  /** A hexadecimal digit is never escaped, and is not a percent sign. */
  lemma HexIsPlain(k: Kind, c: bv8)
    requires IsHex(c)
    ensures !Escapes(k, c) && c != PERCENT
  {
    TablesCover(k, c);
  }

  // ----- escaping -----

  function EscapedByte(k: Kind, c: bv8): Bytes {
    if Escapes(k, c) then [PERCENT, High(c), Low(c)] else [c]
  }

  function Escaped(k: Kind, s: Bytes): Bytes {
    if s == [] then [] else EscapedByte(k, s[0]) + Escaped(k, s[1..])
  }

  function Count(k: Kind, s: Bytes): nat {
    if s == [] then 0 else (if Escapes(k, s[0]) then 1 else 0) + Count(k, s[1..])
  }

  /** The first pass predicts the length of the output. */
  lemma {:induction false} CountPredicts(k: Kind, s: Bytes)
    ensures |Escaped(k, s)| == |s| + 2 * Count(k, s)
  {
    if s != [] { CountPredicts(k, s[1..]); }
  }

  lemma {:induction false} CountAppend(k: Kind, s: Bytes, c: bv8)
    ensures Count(k, s + [c]) == Count(k, s) + if Escapes(k, c) then 1 else 0
    ensures Escaped(k, s + [c]) == Escaped(k, s) + EscapedByte(k, c)
  {
    hide Escapes, EscapedByte;
    if s == [] {
      assert s + [c] == [c] && [c][1..] == [];
    } else {
      CountAppend(k, s[1..], c);
      assert (s + [c])[1..] == s[1..] + [c];
    }
  }

  /** Without a destination: how many bytes are to be escaped. */
  method CountEscapes(src: Bytes, k: Kind) returns (n: nat)
    ensures n == Count(k, src)
  {
    hide Escapes;
    n := 0;
    var i := 0;
    while i < |src|
      invariant 0 <= i <= |src| && n == Count(k, src[..i])
    {
      CountAppend(k, src[..i], src[i]);
      assert src[..i + 1] == src[..i] + [src[i]];
      if Escapes(k, src[i]) {
        n := n + 1;
      }
      i := i + 1;
    }
    assert src[..i] == src;
  }

  method Escape(src: Bytes, k: Kind) returns (dst: Bytes)
    ensures dst == Escaped(k, src)
  {
    hide Escapes, HexDigit;
    dst := [];
    var i := 0;
    while i < |src|
      invariant 0 <= i <= |src| && dst == Escaped(k, src[..i])
    {
      CountAppend(k, src[..i], src[i]);
      assert src[..i + 1] == src[..i] + [src[i]];
      if Escapes(k, src[i]) {
        dst := dst + [PERCENT, HexDigit(src[i] >> 4), HexDigit(src[i] & 0xf)];
      } else {
        dst := dst + [src[i]];
      }
      i := i + 1;
    }
    assert src[..i] == src;
  }

  // ----- unescaping -----

  /** Stop at a question mark (SHS_UNESCAPE_URI), or also keep some escapes as they are (SHS_UNESCAPE_REDIRECT). */
  datatype Mode = Mode(uri: bool, redirect: bool)

  const PLAIN := Mode(false, false)

  /** What two hexadecimal digits turn into. */
  function Turned(m: Mode, h: bv8, l: bv8): Bytes {
    var c := Byte(h, l);
    if !m.redirect || (m.uri && !(48 <= l <= 57)) || PERCENT < c < 0x7f then [c] else [PERCENT, h, l]
  }

  /** The output, looking ahead from each percent sign. */
  function Unescaped(m: Mode, s: Bytes): Bytes {
    if s == [] then []
    else if s[0] != PERCENT then
      if s[0] == QUESTION && m != PLAIN then [QUESTION] else [s[0]] + Unescaped(m, s[1..])
    else if |s| == 1 then []
    else if !IsHex(s[1]) then [s[1]] + Unescaped(m, s[2..])
    else if |s| == 2 then []
    else if !IsHex(s[2]) then Unescaped(m, s[3..])
    else if Byte(s[1], s[2]) == QUESTION && m != PLAIN then [QUESTION]
    else Turned(m, s[1], s[2]) + Unescaped(m, s[3..])
  }

  /** What is left unread: reading ends behind a question mark, plain or escaped, unless in the plain mode. */
  function Unread(m: Mode, s: Bytes): Bytes {
    if s == [] then []
    else if s[0] != PERCENT then
      if s[0] == QUESTION && m != PLAIN then s[1..] else Unread(m, s[1..])
    else if |s| == 1 then []
    else if !IsHex(s[1]) then Unread(m, s[2..])
    else if |s| == 2 then []
    else if IsHex(s[2]) && Byte(s[1], s[2]) == QUESTION && m != PLAIN then s[3..]
    else Unread(m, s[3..])
  }

  /** The input ends with what is left unread. */
  lemma {:induction false} UnreadIsTheEnd(m: Mode, s: Bytes)
    ensures |Unread(m, s)| <= |s| && s[|s| - |Unread(m, s)|..] == Unread(m, s)
    decreases |s|
  {
    hide IsHex, Byte;
    if s != [] {
      var n := if s[0] != PERCENT then 1 else if |s| >= 2 && !IsHex(s[1]) then 2 else 3;
      if n <= |s| {
        UnreadIsTheEnd(m, s[n..]);
        TailOfTail(s, n, |Unread(m, s[n..])|);
        TailOfTail(s, n, |s| - n);
      }
    }
  }

  lemma TailOfTail(s: Bytes, n: nat, k: nat)
    requires n + k <= |s|
    ensures s[n..][|s| - n - k..] == s[|s| - k..]
  {
  }

  /** Something is left unread only behind an output that ends with a question mark. */
  lemma {:induction false} UnreadIsBehindQuestion(m: Mode, s: Bytes)
    ensures Unread(m, s) != [] ==> m != PLAIN && Unescaped(m, s) != [] && Unescaped(m, s)[|Unescaped(m, s)| - 1] == QUESTION
    decreases |s|
  {
    hide IsHex, Byte, Turned;
    if s != [] {
      var n := if s[0] != PERCENT then 1 else if |s| >= 2 && !IsHex(s[1]) then 2 else 3;
      if n <= |s| {
        UnreadIsBehindQuestion(m, s[n..]);
      }
    }
  }

  lemma ReadPlain(m: Mode, c: bv8, rest: Bytes)
    requires c != PERCENT
    ensures Unescaped(m, [c] + rest) == if c == QUESTION && m != PLAIN then [c] else [c] + Unescaped(m, rest)
    ensures Unread(m, [c] + rest) == if c == QUESTION && m != PLAIN then rest else Unread(m, rest)
  {
    assert ([c] + rest)[1..] == rest;
  }

  lemma ReadQuoted(m: Mode, c: bv8, rest: Bytes)
    requires !IsHex(c)
    ensures Unescaped(m, [PERCENT, c] + rest) == [c] + Unescaped(m, rest)
    ensures Unread(m, [PERCENT, c] + rest) == Unread(m, rest)
  {
    assert ([PERCENT, c] + rest)[2..] == rest;
  }

  lemma ReadPair(m: Mode, h: bv8, l: bv8, rest: Bytes)
    requires IsHex(h)
    ensures Unescaped(m, [PERCENT, h, l] + rest) ==
            if !IsHex(l) then Unescaped(m, rest)
            else if Byte(h, l) == QUESTION && m != PLAIN then [QUESTION]
            else Turned(m, h, l) + Unescaped(m, rest)
    ensures Unread(m, [PERCENT, h, l] + rest)
            == if IsHex(l) && Byte(h, l) == QUESTION && m != PLAIN then rest else Unread(m, rest)
  {
    assert ([PERCENT, h, l] + rest)[3..] == rest;
  }

  /** An escaped byte of the printable ones behind the percent sign is read, in every mode; the question mark ends it. */
  lemma PrintableIsRead(m: Mode, h: bv8, l: bv8, rest: Bytes)
    requires IsHex(h) && IsHex(l) && (PERCENT < Byte(h, l) < 0x7f || !m.redirect)
    ensures Unescaped(m, [PERCENT, h, l] + rest)
            == if Byte(h, l) == QUESTION && m != PLAIN then [QUESTION] else [Byte(h, l)] + Unescaped(m, rest)
  {
    ReadPair(m, h, l, rest);
  }

  /** For a redirect, the other escaped bytes stay escaped; with both flags only those with a decimal last digit. */
  lemma OthersStay(m: Mode, h: bv8, l: bv8, rest: Bytes)
    requires IsHex(h) && IsHex(l) && !(PERCENT < Byte(h, l) < 0x7f) && m.redirect && (!m.uri || 48 <= l <= 57)
    ensures Unescaped(m, [PERCENT, h, l] + rest) == [PERCENT, h, l] + Unescaped(m, rest)
  {
    ReadPair(m, h, l, rest);
  }

  /** For a redirect, what comes out was there, or is printable. */
  lemma {:induction false} RedirectReadsPrintables(s: Bytes, b: bv8)
    requires b in Unescaped(Mode(false, true), s)
    ensures b in s || PERCENT < b < 0x7f
    decreases |s|
  {
    hide IsHex, Byte;
    var m := Mode(false, true);
    if s != [] {
      var n := if s[0] != PERCENT then 1 else if |s| >= 2 && !IsHex(s[1]) then 2 else 3;
      if n <= |s| && b in Unescaped(m, s[n..]) {
        RedirectReadsPrintables(s[n..], b);
      }
    }
  }

  lemma NoDigitAsksForMore(h: bv8, l: bv8)
    requires IsHex(h) && 48 <= l <= 57
    ensures Byte(h, l) != QUESTION
  {
  }

  datatype State = Usual | Quoted | QuotedSecond(first: bv8)

  /** What the machine has read since the last percent sign. */
  function Pending(state: State): Bytes {
    match state
    case Usual => []
    case Quoted => [PERCENT]
    case QuotedSecond(h) => [PERCENT, h]
  }

  /** The input from the last percent sign on, if the machine is behind one. */
  function Left(state: State, src: Bytes, i: nat): Bytes
    requires i <= |src|
  {
    Pending(state) + src[i..]
  }

  lemma FromUsual(m: Mode, src: Bytes, i: nat)
    requires i < |src|
    ensures Unescaped(m, Left(Usual, src, i)) ==
            if src[i] == QUESTION && m != PLAIN then [src[i]]
            else if src[i] == PERCENT then Unescaped(m, Left(Quoted, src, i + 1))
            else [src[i]] + Unescaped(m, Left(Usual, src, i + 1))
    ensures Unread(m, Left(Usual, src, i)) ==
            if src[i] == QUESTION && m != PLAIN then src[i + 1..]
            else Unread(m, Left(if src[i] == PERCENT then Quoted else Usual, src, i + 1))
  {
    hide Unescaped, Unread;
    assert Left(Usual, src, i) == [src[i]] + src[i + 1..];
    assert Left(Usual, src, i + 1) == src[i + 1..];
    if src[i] != PERCENT {
      ReadPlain(m, src[i], src[i + 1..]);
    }
  }

  lemma FromQuoted(m: Mode, src: Bytes, i: nat)
    requires i < |src|
    ensures Unescaped(m, Left(Quoted, src, i)) ==
            if IsHex(src[i]) then Unescaped(m, Left(QuotedSecond(src[i]), src, i + 1))
            else [src[i]] + Unescaped(m, Left(Usual, src, i + 1))
    ensures Unread(m, Left(Quoted, src, i))
            == Unread(m, Left(if IsHex(src[i]) then QuotedSecond(src[i]) else Usual, src, i + 1))
  {
    hide Unescaped, Unread, IsHex;
    assert Left(Quoted, src, i) == [PERCENT, src[i]] + src[i + 1..];
    assert Left(Usual, src, i + 1) == src[i + 1..];
    if !IsHex(src[i]) {
      ReadQuoted(m, src[i], src[i + 1..]);
    }
  }

  lemma FromQuotedSecond(m: Mode, h: bv8, src: Bytes, i: nat)
    requires i < |src| && IsHex(h)
    ensures Unescaped(m, Left(QuotedSecond(h), src, i)) ==
            if !IsHex(src[i]) then Unescaped(m, Left(Usual, src, i + 1))
            else if Byte(h, src[i]) == QUESTION && m != PLAIN then [QUESTION]
            else Turned(m, h, src[i]) + Unescaped(m, Left(Usual, src, i + 1))
    ensures Unread(m, Left(QuotedSecond(h), src, i)) ==
            if IsHex(src[i]) && Byte(h, src[i]) == QUESTION && m != PLAIN then src[i + 1..]
            else Unread(m, Left(Usual, src, i + 1))
  {
    hide Unescaped, Unread, IsHex, Turned;
    assert Left(QuotedSecond(h), src, i) == [PERCENT, h, src[i]] + src[i + 1..];
    assert Left(Usual, src, i + 1) == src[i + 1..];
    ReadPair(m, h, src[i], src[i + 1..]);
  }

  /** A percent sign at the end of the input takes what follows it along. */
  lemma AtEnd(m: Mode, state: State, src: Bytes)
    requires state.QuotedSecond? ==> IsHex(state.first)
    ensures Unescaped(m, Left(state, src, |src|)) == Unread(m, Left(state, src, |src|)) == []
  {
    assert Left(state, src, |src|) == Pending(state);
  }

  lemma AtStart(src: Bytes)
    ensures Left(Usual, src, 0) == src
  {
  }

  lemma Regroup(d: Bytes, out: Bytes, tail: Bytes)
    ensures d + (out + tail) == (d + out) + tail
  {
  }

  /** The source's machine reads one byte at a time, computes the same and tells where it stopped. */
  method Unescape(src: Bytes, m: Mode) returns (d: Bytes, i: nat)
    ensures d == Unescaped(m, src) && i <= |src| && src[i..] == Unread(m, src)
  {
    hide Unescaped, Unread, IsHex, Left, Turned, HexValue, Byte, Pending;
    var state, decoded := Usual, 0 as bv8;
    d, i := [], 0;
    AtStart(src);
    while i < |src|
      invariant 0 <= i <= |src|
      invariant state.QuotedSecond? ==> i >= 2 && src[i - 2] == PERCENT && state.first == src[i - 1] && IsHex(src[i - 1])
      invariant state.QuotedSecond? ==> decoded == HexValue(src[i - 1])
      invariant state.Quoted? ==> i >= 1 && src[i - 1] == PERCENT
      invariant d + Unescaped(m, Left(state, src, i)) == Unescaped(m, src)
      invariant Unread(m, Left(state, src, i)) == Unread(m, src)
    {
      var ch := src[i];
      match state
      case Usual =>
        FromUsual(m, src, i);
        i := i + 1;
        if ch == QUESTION && (m.uri || m.redirect) {
          d := d + [ch];
          return;
        }
        if ch == PERCENT {
          state := Quoted;
        } else {
          Regroup(d, [ch], Unescaped(m, Left(Usual, src, i)));
          d := d + [ch];
        }
      case Quoted =>
        FromQuoted(m, src, i);
        i := i + 1;
        if IsHex(ch) {
          decoded := HexValue(ch);
          state := QuotedSecond(ch);
        } else {
          state := Usual;
          Regroup(d, [ch], Unescaped(m, Left(Usual, src, i)));
          d := d + [ch];
        }
      case QuotedSecond(h) =>
        FromQuotedSecond(m, h, src, i);
        i := i + 1;
        state := Usual;
        if IsHex(ch) {
          var stop, out := Turn(m, src, i, h, ch, decoded);
          Regroup(d, out, Unescaped(m, Left(Usual, src, i)));
          d := d + out;
          if stop {
            return;
          }
        }
    }
    AtEnd(m, state, src);
  }

  /** The branches on the byte of a complete escape. */
  method Turn(m: Mode, src: Bytes, i: nat, h: bv8, ch: bv8, decoded: bv8) returns (stop: bool, out: Bytes)
    requires 2 <= i <= |src| && src[i - 2] == h && src[i - 1] == ch
    requires IsHex(h) && IsHex(ch) && decoded == HexValue(h)
    ensures stop <==> Byte(h, ch) == QUESTION && m != PLAIN
    ensures out == if stop then [QUESTION] else Turned(m, h, ch)
  {
    stop := false;
    if 48 <= ch <= 57 {
      NoDigitAsksForMore(h, ch);
      var c := (decoded << 4) + ch - 48;
      assert c == Byte(h, ch);
      if m.redirect && !(PERCENT < c < 0x7f) {
        out := [PERCENT, src[i - 2], src[i - 1]];
      } else {
        out := [c];
      }
      return;
    }
    var c := (decoded << 4) + (ch | 0x20) - 97 + 10;
    assert c == Byte(h, ch);
    if m.uri {
      stop := c == QUESTION;
      out := [c];
    } else if m.redirect {
      if c == QUESTION {
        stop := true;
        out := [c];
      } else if PERCENT < c < 0x7f {
        out := [c];
      } else {
        out := [PERCENT, src[i - 2], src[i - 1]];
      }
    } else {
      out := [c];
    }
  }

  // ----- the round trip -----

  /** Twice the length, and three more for each byte that is escaped. */
  ghost function Weight(k: Kind, s: Bytes): nat {
    if s == [] then 0 else (if Escapes(k, s[0]) then 5 else 2) + Weight(k, s[1..])
  }

  lemma WeightOf(k: Kind, c: bv8, s: Bytes)
    ensures Weight(k, [c] + s) == (if Escapes(k, c) then 5 else 2) + Weight(k, s)
  {
    assert ([c] + s)[1..] == s;
  }

  /** What comes back for a byte that is not a percent sign left as it is. */
  lemma ReadBack(k: Kind, c: bv8, rest: Bytes)
    requires Escapes(k, c) || c != PERCENT
    ensures Unescaped(PLAIN, EscapedByte(k, c) + rest) == [c] + Unescaped(PLAIN, rest)
  {
    hide Unescaped;
    HexPair(c);
    if Escapes(k, c) {
      ReadPair(PLAIN, High(c), Low(c), rest);
    } else {
      ReadPlain(PLAIN, c, rest);
    }
  }

  /** Unescaping undoes escaping where no percent sign is left as it is. */
  lemma {:induction false} Undone(k: Kind, s: Bytes)
    requires Escapes(k, PERCENT) || PERCENT !in s
    ensures Unescaped(PLAIN, Escaped(k, s)) == s
  {
    hide Escapes, EscapedByte;
    if s == [] {
      assert Unescaped(PLAIN, []) == [];
    } else {
      Undone(k, s[1..]);
      ReadBack(k, s[0], Escaped(k, s[1..]));
    }
  }

  /** What comes back for the two digits of an escape whose percent sign is taken for something else. */
  lemma ReadDigits(k: Kind, c: bv8, rest: Bytes)
    ensures Unescaped(PLAIN, [High(c), Low(c)] + rest) == [High(c), Low(c)] + Unescaped(PLAIN, rest)
    ensures Weight(k, [High(c), Low(c)] + Unescaped(PLAIN, rest)) == 4 + Weight(k, Unescaped(PLAIN, rest))
  {
    hide Unescaped, Escapes, HexDigit;
    HexPair(c);
    HexIsPlain(k, High(c));
    HexIsPlain(k, Low(c));
    var back := Unescaped(PLAIN, rest);
    ReadPlain(PLAIN, High(c), [Low(c)] + rest);
    ReadPlain(PLAIN, Low(c), rest);
    assert [High(c)] + ([Low(c)] + rest) == [High(c), Low(c)] + rest;
    assert [High(c)] + ([Low(c)] + back) == [High(c), Low(c)] + back;
    WeightOf(k, High(c), [Low(c)] + back);
    WeightOf(k, Low(c), back);
  }

  ghost function Back(k: Kind, s: Bytes): Bytes {
    Unescaped(PLAIN, Escaped(k, s))
  }

  lemma EscapedSum(k: Kind, c: bv8, s: Bytes)
    ensures Escaped(k, [c] + s) == EscapedByte(k, c) + Escaped(k, s)
  {
    assert ([c] + s)[1..] == s;
  }

  lemma EscapedQuoted(k: Kind, c: bv8, s: Bytes)
    requires !Escapes(k, PERCENT)
    ensures Escaped(k, [PERCENT, c] + s) ==
            if Escapes(k, c) then [PERCENT, PERCENT] + ([High(c), Low(c)] + Escaped(k, s)) else [PERCENT, c] + Escaped(k, s)
  {
    hide Escapes, HexDigit, Escaped;
    EscapedSum(k, PERCENT, [c] + s);
    EscapedSum(k, c, s);
    assert [PERCENT] + ([c] + s) == [PERCENT, c] + s;
  }

  lemma EscapedPair(k: Kind, h: bv8, c: bv8, s: Bytes)
    requires !Escapes(k, PERCENT) && !Escapes(k, h)
    ensures Escaped(k, [PERCENT, h, c] + s) ==
            if Escapes(k, c) then [PERCENT, h, PERCENT] + ([High(c), Low(c)] + Escaped(k, s))
            else [PERCENT, h, c] + Escaped(k, s)
  {
    hide Escapes, HexDigit, Escaped;
    EscapedSum(k, PERCENT, [h, c] + s);
    EscapedQuotedTail(k, h, c, s);
    assert [PERCENT] + ([h, c] + s) == [PERCENT, h, c] + s;
  }

  lemma EscapedQuotedTail(k: Kind, h: bv8, c: bv8, s: Bytes)
    requires !Escapes(k, h)
    ensures Escaped(k, [h, c] + s) == [h] + (EscapedByte(k, c) + Escaped(k, s))
  {
    hide Escapes, HexDigit, Escaped;
    EscapedSum(k, h, [c] + s);
    EscapedSum(k, c, s);
    assert [h] + ([c] + s) == [h, c] + s;
  }

  /** A percent sign followed by a byte that is not a hexadecimal digit. */
  lemma BackQuoted(k: Kind, c: bv8, s: Bytes)
    requires !Escapes(k, PERCENT) && !IsHex(c)
    ensures Weight(k, Back(k, [PERCENT, c] + s)) < 2 + (if Escapes(k, c) then 5 else 2) + Weight(k, Back(k, s))
  {
    hide Escapes, Unescaped, IsHex, HexDigit, Escaped, Weight;
    var e := Escaped(k, s);
    EscapedQuoted(k, c, s);
    if Escapes(k, c) {
      PercentIsNoDigit();
      ReadQuoted(PLAIN, PERCENT, [High(c), Low(c)] + e);
      ReadDigits(k, c, e);
      WeightOf(k, PERCENT, [High(c), Low(c)] + Unescaped(PLAIN, e));
    } else {
      ReadQuoted(PLAIN, c, e);
      WeightOf(k, c, Unescaped(PLAIN, e));
    }
  }

  lemma PercentIsNoDigit()
    ensures !IsHex(PERCENT)
  {
  }

  /** A percent sign and a hexadecimal digit, followed by any byte. */
  lemma BackPair(k: Kind, h: bv8, c: bv8, s: Bytes)
    requires !Escapes(k, PERCENT) && IsHex(h)
    ensures Weight(k, Back(k, [PERCENT, h, c] + s)) < 4 + (if Escapes(k, c) then 5 else 2) + Weight(k, Back(k, s))
  {
    hide Escapes, Unescaped, IsHex, HexDigit, Escaped, Weight, Byte;
    var e := Escaped(k, s);
    HexIsPlain(k, h);
    EscapedPair(k, h, c, s);
    if Escapes(k, c) {
      PercentIsNoDigit();
      ReadPair(PLAIN, h, PERCENT, [High(c), Low(c)] + e);
      ReadDigits(k, c, e);
    } else {
      ReadPair(PLAIN, h, c, e);
      if IsHex(c) {
        WeightOf(k, Byte(h, c), Unescaped(PLAIN, e));
      }
    }
  }

  /** Where percent signs are left as they are, each one costs weight. */
  lemma {:induction false} PercentsCost(k: Kind, s: Bytes)
    requires !Escapes(k, PERCENT)
    ensures Weight(k, Back(k, s)) <= Weight(k, s)
    ensures PERCENT in s ==> Weight(k, Back(k, s)) < Weight(k, s)
    decreases |s|
  {
    hide Escapes, Unescaped, IsHex;
    if s == [] {
      Empty(k, []);
    } else {
      assert s == [s[0]] + s[1..];
      WeightOf(k, s[0], s[1..]);
      if s[0] != PERCENT {
        PercentsCost(k, s[1..]);
        ReadBack(k, s[0], Escaped(k, s[1..]));
        WeightOf(k, s[0], Back(k, s[1..]));
      } else if |s| == 1 || (|s| == 2 && IsHex(s[1])) {
        Empty(k, s);
      } else {
        var c := s[1];
        assert s[1..] == [c] + s[2..];
        WeightOf(k, c, s[2..]);
        if !IsHex(c) {
          assert s == [PERCENT, c] + s[2..];
          PercentsCost(k, s[2..]);
          BackQuoted(k, c, s[2..]);
        } else {
          HexIsPlain(k, c);
          assert s == [PERCENT, c, s[2]] + s[3..] && s[2..] == [s[2]] + s[3..];
          WeightOf(k, s[2], s[3..]);
          PercentsCost(k, s[3..]);
          BackPair(k, c, s[2], s[3..]);
        }
      }
    }
  }

  lemma {:induction false} AsItIs(k: Kind, s: Bytes)
    requires forall i :: 0 <= i < |s| ==> !Escapes(k, s[i])
    ensures Escaped(k, s) == s
  {
    if s != [] { AsItIs(k, s[1..]); }
  }

  /** Nothing comes back for a percent sign, alone or with one digit. */
  lemma Empty(k: Kind, s: Bytes)
    requires s == [] || (!Escapes(k, PERCENT) && (s == [PERCENT] || (|s| == 2 && s[0] == PERCENT && IsHex(s[1]))))
    ensures Back(k, s) == [] && Weight(k, []) == 0
  {
    if |s| == 2 {
      HexIsPlain(k, s[1]);
    }
    if s != [] {
      AsItIs(k, s);
    }
  }

  /**
    Unescaping undoes escaping exactly for the strings whose percent signs are escaped: all of them, but for one type.
  */
  lemma UndoneExactly(k: Kind, s: Bytes)
    ensures Back(k, s) == s <==> (k.Refresh? ==> PERCENT !in s)
  {
    TablesCover(k, PERCENT);
    if k.Refresh? && PERCENT in s {
      PercentsCost(k, s);
    } else {
      Undone(k, s);
    }
  }

  /** A string the Refresh table does not bring back. */
  lemma RefreshLosesPercents()
    ensures Back(Refresh, [PERCENT, 52, 49]) == [65]
  {
    var s: Bytes := [PERCENT, 52, 49];
    TablesCover(Refresh, PERCENT);
    TablesCover(Refresh, 52);
    TablesCover(Refresh, 49);
    AsItIs(Refresh, s);
    ReadPair(PLAIN, 52, 49, []);
    assert s == [PERCENT, 52, 49] + [];
  }
}
