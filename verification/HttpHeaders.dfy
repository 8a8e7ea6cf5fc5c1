/**
  The header block of src/http/http.cc: http_make_header (386-412), the header slots (916-981), buffer_readline
  (1049-1091), http_append_to_last_input_header (1093-1134) and http_parse_headers (1136-1179).
*/
module HttpHeaders {
  import opened Basics
  import opened UriEscape
  import opened Query

  const CR: bv8 := 13
  const LF: bv8 := 10
  const TAB: bv8 := 9
  const COLON: bv8 := 58
  const HEADER_NUM := 35

  datatype Header = Header(key: Bytes, value: Bytes)

  const NONE := Header([], [])

  // ----- lines -----

  predicate EndsLine(c: bv8) {
    c == CR || c == LF
  }

  /** The first position of a line's end, or the length. */
  function LineEnd(s: Bytes): (i: nat)
    ensures i <= |s| && (i < |s| ==> EndsLine(s[i])) && forall k :: 0 <= k < i ==> !EndsLine(s[k])
  {
    if s == [] || EndsLine(s[0]) then 0 else 1 + LineEnd(s[1..])
  }

  /** The start of the next line: two different end characters end one line together. */
  function NextLine(s: Bytes): (j: nat)
    requires LineEnd(s) < |s|
    ensures LineEnd(s) < j <= |s|
  {
    var i := LineEnd(s);
    if i + 1 < |s| && EndsLine(s[i + 1]) && s[i + 1] != s[i] then i + 2 else i + 1
  }

  lemma {:induction false} LineEndOfSum(a: Bytes, b: Bytes)
    ensures LineEnd(a + b) == if LineEnd(a) < |a| then LineEnd(a) else |a| + LineEnd(b)
  {
    if a == [] {
      assert a + b == b;
    } else {
      assert (a + b)[1..] == a[1..] + b;
      if !EndsLine(a[0]) { LineEndOfSum(a[1..], b); }
    }
  }

  // ----- one line -----

  function SkipSpaces(s: Bytes): Bytes {
    if s != [] && s[0] == SPACE then SkipSpaces(s[1..]) else s
  }

  /** Leading spaces are skipped, and nothing else. */
  lemma {:induction false} SkipsSpaces(s: Bytes)
    ensures var r := SkipSpaces(s);
      && |r| <= |s| && s[|s| - |r|..] == r && (r == [] || r[0] != SPACE)
      && forall i :: 0 <= i < |s| - |r| ==> s[i] == SPACE
  {
    if s != [] && s[0] == SPACE {
      SkipsSpaces(s[1..]);
      var r := SkipSpaces(s);
      assert s[|s| - |r|..] == s[1..][|s| - 1 - |r|..];
      forall i | 0 <= i < |s| - |r|
        ensures s[i] == SPACE
      {
        assert i > 0 ==> s[i] == s[1..][i - 1];
      }
    }
  }

  /**
    The first free slot is taken; without one the header is dropped, and one with neither key nor value leaves its
    slot free.
  */
  function Added(hs: seq<Header>, h: Header): seq<Header> {
    if |hs| < HEADER_NUM && h != NONE then hs + [h] else hs
  }

  /** The slot a continuation line goes to: the last one taken, but the first one when all are. */
  function LastSlot(hs: seq<Header>): nat
    requires hs != []
  {
    if |hs| == HEADER_NUM then 0 else |hs| - 1
  }

  /** The length kept with the value counts the terminator. */
  function Continued(hs: seq<Header>, line: Bytes): seq<Header>
    requires hs != []
  {
    var h := hs[LastSlot(hs)];
    hs[LastSlot(hs) := Header(h.key, h.value + line + [NUL])]
  }

  datatype Verdict = Blank | Bad | Goes(hs: seq<Header>)

  /** What the line, a C string, does to the headers. */
  function Judge(hs: seq<Header>, line: Bytes): Verdict {
    if line == [] then Blank
    else if line[0] == SPACE || line[0] == TAB then
      if hs == [] then Bad else Goes(Continued(hs, line))
    else
      var p := Find(line, COLON);
      if p == |line| then Bad else Goes(Added(hs, Header(line[..p], SkipSpaces(line[p + 1..]))))
  }

  // ----- the block -----

  /** The rest of the input waits for more, or is the body. */
  datatype Outcome = More(hs: seq<Header>, rest: Bytes) | Done(hs: seq<Header>, rest: Bytes) | Corrupted

  function ParsedBlock(hs: seq<Header>, s: Bytes): Outcome
    decreases |s|
  {
    var i := LineEnd(s);
    if i == |s| then More(hs, s)
    else
      match Judge(hs, Cut(s[..i]))
      case Blank => Done(hs, s[NextLine(s)..])
      case Bad => Corrupted
      case Goes(hs') => ParsedBlock(hs', s[NextLine(s)..])
  }

  /** More input arrives. */
  function Fed(o: Outcome, b: Bytes): Outcome {
    match o
    case More(hs, rest) => ParsedBlock(hs, rest + b)
    case Done(hs, rest) => Done(hs, rest + b)
    case Corrupted => Corrupted
  }

  function FedAll(o: Outcome, pieces: seq<Bytes>): Outcome
    decreases |pieces|
  {
    if pieces == [] then o else FedAll(Fed(o, pieces[0]), pieces[1..])
  }

  function Concat(pieces: seq<Bytes>): Bytes {
    if pieces == [] then [] else pieces[0] + Concat(pieces[1..])
  }

  /** Reading `a` to its end takes its last byte for a line's end of its own, and `b` starts with the other half. */
  predicate Torn(hs: seq<Header>, a: Bytes, b: Bytes)
    decreases |a|
  {
    var i := LineEnd(a);
    if i == |a| then false
    else
      var v := Judge(hs, Cut(a[..i]));
      if i == |a| - 1 then !v.Bad? && b != [] && EndsLine(b[0]) && b[0] != a[i]
      else v.Goes? && Torn(v.hs, a[NextLine(a)..], b)
  }

  lemma SumOfSlices(a: Bytes, b: Bytes, i: nat)
    requires i <= |a|
    ensures (a + b)[..i] == a[..i] && (a + b)[i..] == a[i..] + b
  {
  }

  /** Unless the cut tears a line's end, reading the pieces is reading the whole. */
  lemma {:induction false} CutAgrees(hs: seq<Header>, a: Bytes, b: Bytes)
    requires !Torn(hs, a, b)
    ensures ParsedBlock(hs, a + b) == Fed(ParsedBlock(hs, a), b)
    decreases |a|
  {
    hide Judge, Cut;
    LineEndOfSum(a, b);
    var i := LineEnd(a);
    if i < |a| {
      SumOfSlices(a, b, i);
      SumOfSlices(a, b, NextLine(a));
      var v := Judge(hs, Cut(a[..i]));
      if v.Goes? || v.Blank? {
        assert NextLine(a + b) == NextLine(a);
        if v.Goes? {
          if i == |a| - 1 {
            assert a[NextLine(a)..] == [];
            assert a[NextLine(a)..] + b == b;
            assert [] + b == b;
            EmptyInput(v.hs);
          } else {
            CutAgrees(v.hs, a[NextLine(a)..], b);
          }
        }
      }
    }
  }

  lemma EmptyInput(hs: seq<Header>)
    ensures ParsedBlock(hs, []) == More(hs, [])
  {
  }

  // ----- input whose lines end in CR LF -----

  /** Every CR has its LF behind it, as far as the text goes, and every LF its CR before it. */
  ghost predicate Paired(t: Bytes) {
    && (forall i :: 0 <= i < |t| && t[i] == CR ==> i + 1 == |t| || t[i + 1] == LF)
    && (forall i :: 0 <= i < |t| && t[i] == LF ==> i > 0 && t[i - 1] == CR)
  }

  predicate BetweenPair(a: Bytes, b: Bytes) {
    a != [] && b != [] && a[|a| - 1] == CR && b[0] == LF
  }

  lemma PairedFrom(t: Bytes, j: nat)
    requires Paired(t) && j <= |t| && (j < |t| ==> t[j] != LF)
    ensures Paired(t[j..])
  {
    var u := t[j..];
    forall k | 0 <= k < |u| && u[k] == CR ensures k + 1 == |u| || u[k + 1] == LF {
      assert t[j + k] == CR && (k + 1 < |u| ==> t[j + k + 1] == u[k + 1]);
    }
    forall k | 0 <= k < |u| && u[k] == LF ensures k > 0 && u[k - 1] == CR {
      assert t[j + k] == LF && k != 0 && t[j + k - 1] == u[k - 1];
    }
  }

  lemma LineOfPaired(t: Bytes)
    requires Paired(t) && LineEnd(t) < |t|
    ensures t[LineEnd(t)] == CR && Paired(t[NextLine(t)..])
    ensures LineEnd(t) + 1 < |t| ==> NextLine(t) == LineEnd(t) + 2
  {
    var i := LineEnd(t);
    assert t[i] == CR;
    if NextLine(t) < |t| { NotSecond(t, NextLine(t)); }
    PairedFrom(t, NextLine(t));
  }

  lemma NotSecond(t: Bytes, j: nat)
    requires Paired(t) && 0 < j < |t| && t[j - 1] != CR
    ensures t[j] != LF
  {
  }

  lemma RestOfPaired(a: Bytes, b: Bytes)
    requires Paired(a + b) && LineEnd(a) < |a|
    ensures a[LineEnd(a)] == CR
    ensures LineEnd(a) == |a| - 1 ==> b == [] || b[0] == LF
    ensures LineEnd(a) < |a| - 1 ==> NextLine(a) == LineEnd(a) + 2 && Paired(a[NextLine(a)..] + b)
  {
    hide Paired;
    LineEndOfSum(a, b);
    LineOfPaired(a + b);
    if LineEnd(a) == |a| - 1 {
      if b != [] { FirstOfSecond(a, b); }
    } else {
      assert NextLine(a + b) == NextLine(a);
      SumOfSlices(a, b, NextLine(a));
    }
  }

  lemma FirstOfSecond(a: Bytes, b: Bytes)
    requires Paired(a + b) && a != [] && b != [] && a[|a| - 1] == CR
    ensures b[0] == LF
  {
    assert (a + b)[|a| - 1] == CR && (a + b)[|a|] == b[0];
  }

  /** The headers, or what has come of them, end with the input. */
  predicate ReadToEnd(o: Outcome) {
    !o.Corrupted? && o.rest == []
  }

  /** Then a line's end is torn exactly by a cut between CR and LF up to which everything is read. */
  lemma {:induction false} TornExactly(hs: seq<Header>, a: Bytes, b: Bytes)
    requires Paired(a + b)
    ensures Torn(hs, a, b) <==> BetweenPair(a, b) && ReadToEnd(ParsedBlock(hs, a))
    decreases |a|
  {
    hide Judge, Cut, Paired;
    var i := LineEnd(a);
    if i < |a| {
      RestOfPaired(a, b);
      var v := Judge(hs, Cut(a[..i]));
      if i == |a| - 1 {
        if v.Goes? { EmptyInput(v.hs); }
      } else {
        LastOfRest(a, b);
        if v.Goes? { TornExactly(v.hs, a[NextLine(a)..], b); }
      }
    }
  }

  /** A whole line before the cut leaves the question whether the cut is between CR and LF to the rest. */
  lemma LastOfRest(a: Bytes, b: Bytes)
    requires Paired(a + b) && LineEnd(a) < |a| - 1
    ensures BetweenPair(a, b) <==> BetweenPair(a[NextLine(a)..], b)
  {
    var i := LineEnd(a);
    hide Paired;
    RestOfPaired(a, b);
    if NextLine(a) == |a| { SecondIsLF(a, b, i); }
  }

  lemma SecondIsLF(a: Bytes, b: Bytes, i: nat)
    requires Paired(a + b) && i + 1 < |a| && a[i] == CR
    ensures a[i + 1] == LF
  {
    assert (a + b)[i] == CR && (a + b)[i + 1] == a[i + 1];
  }

  /**
    A cut that tears a line's end makes a difference, but for one way the input can go on: the second half is read as
    a blank line.
  */
  lemma {:induction false} TornDiffers(hs: seq<Header>, a: Bytes, b: Bytes)
    requires Paired(a + b) && Torn(hs, a, b)
    ensures ParsedBlock(hs, a + b) == Fed(ParsedBlock(hs, a), b) <==> b == [LF, CR] && ParsedBlock(hs, a).More?
    decreases |a|
  {
    hide Judge, Cut, Paired, ParsedBlock;
    RestOfPaired(a, b);
    var i := LineEnd(a);
    if i < |a| - 1 {
      WholeLine(hs, a, b);
      TornDiffers(Judge(hs, Cut(a[..i])).hs, a[NextLine(a)..], b);
    } else {
      LastLineTorn(hs, a, b);
    }
  }

  /** A header line that ends well before the cut is read alike from the first piece and from the whole. */
  lemma WholeLine(hs: seq<Header>, a: Bytes, b: Bytes)
    requires LineEnd(a) < |a| - 1 && Judge(hs, Cut(a[..LineEnd(a)])).Goes?
    ensures var hs' := Judge(hs, Cut(a[..LineEnd(a)])).hs;
      ParsedBlock(hs, a) == ParsedBlock(hs', a[NextLine(a)..]) && ParsedBlock(hs, a + b) == ParsedBlock(hs', a[NextLine(a)..] + b)
  {
    hide Judge, Cut;
    LineEndOfSum(a, b);
    SumOfSlices(a, b, LineEnd(a));
    SumOfSlices(a, b, NextLine(a));
  }

  /** The torn line is the last one before the cut. */
  lemma LastLineTorn(hs: seq<Header>, a: Bytes, b: Bytes)
    requires Paired(a + b) && Torn(hs, a, b) && LineEnd(a) == |a| - 1
    ensures ParsedBlock(hs, a + b) == Fed(ParsedBlock(hs, a), b) <==> b == [LF, CR] && ParsedBlock(hs, a).More?
  {
    hide Judge, Cut, Paired, Torn, ParsedBlock;
    TornLine(hs, a, b);
    SecondOfPaired(a, b);
    match Judge(hs, Cut(a[..|a| - 1]))
    case Bad =>
    case Blank =>
      assert |[] + b| > |b[1..]|;
    case Goes(hs') =>
      EmptyInput(hs');
      HalfIsBlank(hs', b);
  }

  /** Both readings of the torn line come to the same verdict, but go on at different places. */
  lemma TornLine(hs: seq<Header>, a: Bytes, b: Bytes)
    requires Paired(a + b) && Torn(hs, a, b) && LineEnd(a) == |a| - 1
    ensures b != [] && b[0] == LF
    ensures match Judge(hs, Cut(a[..|a| - 1]))
            case Bad => false
            case Blank => ParsedBlock(hs, a) == Done(hs, []) && ParsedBlock(hs, a + b) == Done(hs, b[1..])
            case Goes(hs') => ParsedBlock(hs, a) == ParsedBlock(hs', []) && ParsedBlock(hs, a + b) == ParsedBlock(hs', b[1..])
  {
    hide Judge, Cut, Paired;
    RestOfPaired(a, b);
    LineEndOfSum(a, b);
    SumOfSlices(a, b, |a| - 1);
    assert (a + b)[|a| + 1..] == b[1..];
  }

  lemma SecondOfPaired(a: Bytes, b: Bytes)
    requires Paired(a + b) && b != []
    ensures |b| > 1 ==> (b[1] == LF ==> b[0] == CR) && (b[1] == CR && |b| > 2 ==> b[2] == LF)
  {
    if |b| > 1 {
      assert (a + b)[|a| + 1] == b[1] && (a + b)[|a|] == b[0];
      if |b| > 2 { assert (a + b)[|a| + 2] == b[2]; }
    }
  }

  /**
    Read on its own, the second half of a line's end is a blank line, and what follows it is read differently, unless
    it is a single CR.
  */
  lemma HalfIsBlank(hs: seq<Header>, b: Bytes)
    requires b != [] && b[0] == LF
    requires |b| > 1 ==> b[1] != LF && (b[1] == CR && |b| > 2 ==> b[2] == LF)
    ensures ParsedBlock(hs, [] + b) == ParsedBlock(hs, b[1..]) <==> b == [LF, CR]
  {
    hide ParsedBlock;
    assert [] + b == b;
    BlankFirst(hs, b);
    if |b| > 1 && b[1] == CR {
      var rest := b[1..];
      BlankFirst(hs, rest);
      assert |b| == 2 ==> b == [LF, CR] && rest[1..] == b[2..];
      assert |b| > 2 ==> rest[1] == b[2] && |rest[2..]| < |b[2..]|;
    } else {
      DoneIsShorter(hs, b[1..]);
    }
  }

  lemma BlankFirst(hs: seq<Header>, s: Bytes)
    requires s != [] && EndsLine(s[0])
    ensures ParsedBlock(hs, s) == Done(hs, if |s| > 1 && EndsLine(s[1]) && s[1] != s[0] then s[2..] else s[1..])
  {
    assert s[..0] == [];
  }

  lemma {:induction false} DoneIsShorter(hs: seq<Header>, s: Bytes)
    ensures ParsedBlock(hs, s).Done? ==> |ParsedBlock(hs, s).rest| < |s|
    decreases |s|
  {
    hide Judge, Cut;
    var i := LineEnd(s);
    if i < |s| && Judge(hs, Cut(s[..i])).Goes? {
      DoneIsShorter(Judge(hs, Cut(s[..i])).hs, s[NextLine(s)..]);
    }
  }

  /**
    Of input with paired line ends, two pieces agree with the whole exactly when the cut is not between a CR and its
    LF, or what is before it is corrupted or ends in the body, or a single CR is all that follows the LF and the headers
    go on.
  */
  lemma CutAgreesExactly(hs: seq<Header>, a: Bytes, b: Bytes)
    requires Paired(a + b)
    ensures ParsedBlock(hs, a + b) == Fed(ParsedBlock(hs, a), b)
            <==> !BetweenPair(a, b) || !ReadToEnd(ParsedBlock(hs, a)) || (b == [LF, CR] && ParsedBlock(hs, a).More?)
  {
    hide Paired, ParsedBlock, Fed;
    TornExactly(hs, a, b);
    if Torn(hs, a, b) {
      TornDiffers(hs, a, b);
    } else {
      CutAgrees(hs, a, b);
    }
  }

  // ----- any number of pieces -----

  ghost predicate NoCutBetween(before: Bytes, pieces: seq<Bytes>) {
    forall k :: 0 <= k <= |pieces| ==> !BetweenPair(before + Concat(pieces[..k]), Concat(pieces[k..]))
  }

  lemma PairedPrefix(a: Bytes, b: Bytes)
    requires Paired(a + b)
    ensures Paired(a)
  {
    forall i | 0 <= i < |a| && a[i] == CR ensures i + 1 == |a| || a[i + 1] == LF {
      assert (a + b)[i] == CR && (i + 1 < |a| ==> (a + b)[i + 1] == a[i + 1]);
    }
    forall i | 0 <= i < |a| && a[i] == LF ensures i > 0 && a[i - 1] == CR {
      assert (a + b)[i] == LF && (i > 0 ==> (a + b)[i - 1] == a[i - 1]);
    }
  }

  /** The pieces to come are read as if they were joined to what has been read. */
  lemma {:induction false} PiecesFrom(hs: seq<Header>, before: Bytes, pieces: seq<Bytes>)
    requires Paired(before + Concat(pieces)) && NoCutBetween(before, pieces)
    ensures FedAll(ParsedBlock(hs, before), pieces) == ParsedBlock(hs, before + Concat(pieces))
    decreases |pieces|
  {
    hide Paired, Torn, ParsedBlock, Fed;
    if pieces == [] {
      assert before + [] == before;
    } else {
      var b, rest := pieces[0], pieces[1..];
      Join(before, b, Concat(rest));
      PairedPrefix(before + b, Concat(rest));
      FirstCut(before, pieces);
      TornExactly(hs, before, b);
      CutAgrees(hs, before, b);
      LaterCuts(before, pieces);
      PiecesFrom(hs, before + b, rest);
    }
  }

  lemma Join(a: Bytes, b: Bytes, c: Bytes)
    ensures a + (b + c) == (a + b) + c
  {
  }

  lemma FirstCut(before: Bytes, pieces: seq<Bytes>)
    requires pieces != [] && NoCutBetween(before, pieces)
    ensures !BetweenPair(before, pieces[0])
  {
    assert pieces[..0] == [] && pieces[0..] == pieces && before + [] == before;
    assert !BetweenPair(before + Concat(pieces[..0]), Concat(pieces[0..]));
  }

  lemma LaterCuts(before: Bytes, pieces: seq<Bytes>)
    requires pieces != [] && NoCutBetween(before, pieces)
    ensures NoCutBetween(before + pieces[0], pieces[1..])
  {
    forall k | 0 <= k <= |pieces| - 1
      ensures !BetweenPair(before + pieces[0] + Concat(pieces[1..][..k]), Concat(pieces[1..][k..]))
    {
      assert !BetweenPair(before + Concat(pieces[..k + 1]), Concat(pieces[k + 1..]));
      assert pieces[..k + 1][1..] == pieces[1..][..k] && pieces[1..][k..] == pieces[k + 1..];
      Join(before, pieces[0], Concat(pieces[1..][..k]));
    }
  }

  /**
    Read in any pieces, none of them cut between a CR and its LF, the input gives the headers and the rest it gives as
    a whole.
  */
  lemma PiecesAgree(hs: seq<Header>, pieces: seq<Bytes>)
    requires Paired(Concat(pieces)) && NoCutBetween([], pieces)
    ensures FedAll(More(hs, []), pieces) == ParsedBlock(hs, Concat(pieces))
  {
    hide Paired, NoCutBetween, Fed, ParsedBlock;
    EmptyInput(hs);
    assert [] + Concat(pieces) == Concat(pieces);
    PiecesFrom(hs, [], pieces);
  }

  // ----- printing -----

  function PrintedOne(h: Header): Bytes {
    Cut(h.key) + [COLON, SPACE] + Cut(h.value) + [CR, LF]
  }

  predicate IsPrinted(h: Header) {
    h.key != [] && h.value != []
  }

  function PrintedLines(slots: seq<Header>): Bytes {
    if slots == [] then []
    else (if IsPrinted(slots[0]) then PrintedOne(slots[0]) else []) + PrintedLines(slots[1..])
  }

  /** The slots with a key and a value, and the blank line. */
  function Printed(slots: seq<Header>): Bytes {
    PrintedLines(slots) + [CR, LF]
  }

  function Kept(slots: seq<Header>): seq<Header> {
    if slots == [] then [] else (if IsPrinted(slots[0]) then [slots[0]] else []) + Kept(slots[1..])
  }

  predicate OnOneLine(s: Bytes) {
    CR !in s && LF !in s && NUL !in s
  }

  /** A key that reads as one, and a value whose start does not read as the space before it. */
  predicate WellFormed(h: Header) {
    && OnOneLine(h.key) && OnOneLine(h.value) && IsPrinted(h)
    && COLON !in h.key && h.key[0] != SPACE && h.key[0] != TAB && h.value[0] != SPACE
  }

  lemma {:induction false} LineEndBefore(line: Bytes, rest: Bytes)
    requires OnOneLine(line)
    ensures LineEnd(line + [CR, LF] + rest) == |line|
  {
    if line == [] {
    } else {
      LineEndBefore(line[1..], rest);
      assert (line + [CR, LF] + rest)[1..] == line[1..] + [CR, LF] + rest;
    }
  }

  /** A line and its end are taken off the input, however it goes on. */
  lemma ReadOne(hs: seq<Header>, line: Bytes, rest: Bytes)
    requires OnOneLine(line)
    ensures ParsedBlock(hs, line + [CR, LF] + rest) == match Judge(hs, line)
                                                  case Blank => Done(hs, rest)
                                                  case Bad => Corrupted
                                                  case Goes(hs') => ParsedBlock(hs', rest)
  {
    hide Judge;
    var s := line + [CR, LF] + rest;
    LineEndBefore(line, rest);
    CutKeeps(line);
    assert s[..|line|] == line && s[|line|] == CR && s[|line| + 1] == LF;
    assert NextLine(s) == |line| + 2 && s[|line| + 2..] == rest;
  }

  lemma JudgePrinted(hs: seq<Header>, h: Header)
    requires WellFormed(h) && |hs| < HEADER_NUM
    ensures Judge(hs, h.key + [COLON, SPACE] + h.value) == Goes(hs + [h])
  {
    var line := h.key + [COLON, SPACE] + h.value;
    FindIn(h.key, COLON, [SPACE] + h.value);
    assert line == h.key + [COLON] + ([SPACE] + h.value);
    assert line[..|h.key|] == h.key && line[|h.key| + 1..] == [SPACE] + h.value;
    assert ([SPACE] + h.value)[1..] == h.value && SkipSpaces(h.value) == h.value;
    assert line[0] == h.key[0];
  }

  lemma ParsePrinted(hs: seq<Header>, h: Header, rest: Bytes)
    requires WellFormed(h) && |hs| < HEADER_NUM
    ensures ParsedBlock(hs, PrintedOne(h) + rest) == ParsedBlock(hs + [h], rest)
  {
    hide ParsedBlock, Judge, Cut;
    CutKeeps(h.key);
    CutKeeps(h.value);
    JudgePrinted(hs, h);
    ReadOne(hs, h.key + [COLON, SPACE] + h.value, rest);
  }

  lemma {:induction false} ParseLines(hs: seq<Header>, slots: seq<Header>, rest: Bytes)
    requires |hs| + |Kept(slots)| <= HEADER_NUM && forall h <- Kept(slots) :: WellFormed(h)
    ensures ParsedBlock(hs, PrintedLines(slots) + rest) == ParsedBlock(hs + Kept(slots), rest)
    decreases |slots|
  {
    hide ParsedBlock, PrintedOne, WellFormed, IsPrinted;
    if slots == [] {
      assert hs + [] == hs && [] + rest == rest;
    } else {
      var tail := PrintedLines(slots[1..]);
      if IsPrinted(slots[0]) {
        assert Kept(slots) == [slots[0]] + Kept(slots[1..]);
        Join(PrintedOne(slots[0]), tail, rest);
        ParsePrinted(hs, slots[0], tail + rest);
        ParseLines(hs + [slots[0]], slots[1..], rest);
        assert hs + [slots[0]] + Kept(slots[1..]) == hs + Kept(slots);
      } else {
        ParseLines(hs, slots[1..], rest);
        assert [] + tail == tail && [] + Kept(slots[1..]) == Kept(slots[1..]);
      }
    }
  }

  /**
    Parsing what is printed gives the headers back, in order, and stops exactly behind the blank line, whatever the
    body.
  */
  lemma ParseUndoesPrint(slots: seq<Header>, body: Bytes)
    requires |slots| <= HEADER_NUM && forall h <- Kept(slots) :: WellFormed(h)
    ensures ParsedBlock([], Printed(slots) + body) == Done(Kept(slots), body)
  {
    hide ParsedBlock, PrintedLines, WellFormed;
    KeptIsShorter(slots);
    Join(PrintedLines(slots), [CR, LF], body);
    ParseLines([], slots, [CR, LF] + body);
    assert [] + Kept(slots) == Kept(slots);
    ReadOne(Kept(slots), [], body);
    assert [] + [CR, LF] + body == [CR, LF] + body;
  }

  lemma {:induction false} KeptIsShorter(slots: seq<Header>)
    ensures |Kept(slots)| <= |slots|
    ensures (forall h <- slots :: IsPrinted(h)) ==> Kept(slots) == slots
  {
    if slots != [] {
      KeptIsShorter(slots[1..]);
      assert slots == [slots[0]] + slots[1..];
    }
  }

  /** For a list of at most 35 well-formed headers, the headers that come back are the list. */
  lemma HeadersReturn(hs: seq<Header>, body: Bytes)
    requires |hs| <= HEADER_NUM && forall h <- hs :: WellFormed(h)
    ensures ParsedBlock([], Printed(hs) + body) == Done(hs, body)
  {
    hide ParsedBlock, Printed;
    KeptIsShorter(hs);
    ParseUndoesPrint(hs, body);
  }

  // ----- other lines -----

  /** Which lines are no headers: those without a colon, and a continuation with nothing before it. */
  lemma BadLineCorrupts(hs: seq<Header>, line: Bytes, rest: Bytes)
    requires OnOneLine(line) && line != []
    requires if line[0] == SPACE || line[0] == TAB then hs == [] else COLON !in line
    ensures ParsedBlock(hs, line + [CR, LF] + rest) == Corrupted
  {
    hide ParsedBlock;
    ReadOne(hs, line, rest);
  }

  /** Behind 35 headers, a further one is dropped. */
  lemma FullDrops(hs: seq<Header>, h: Header, rest: Bytes)
    requires |hs| == HEADER_NUM && WellFormed(h)
    ensures ParsedBlock(hs, PrintedOne(h) + rest) == ParsedBlock(hs, rest)
  {
    hide ParsedBlock, Judge, Cut;
    CutKeeps(h.key);
    CutKeeps(h.value);
    JudgeFull(hs, h);
    ReadOne(hs, h.key + [COLON, SPACE] + h.value, rest);
  }

  lemma JudgeFull(hs: seq<Header>, h: Header)
    requires WellFormed(h) && |hs| == HEADER_NUM
    ensures Judge(hs, h.key + [COLON, SPACE] + h.value) == Goes(hs)
  {
    var line := h.key + [COLON, SPACE] + h.value;
    FindIn(h.key, COLON, [SPACE] + h.value);
    assert line == h.key + [COLON] + ([SPACE] + h.value);
    assert line[0] == h.key[0];
  }

  /** A line ends with CR LF, LF CR, or one of the two that the other does not follow. */
  predicate IsEnd(e: Bytes, rest: Bytes) {
    e == [CR, LF] || e == [LF, CR] || ((e == [CR] || e == [LF]) && (rest == [] || !EndsLine(rest[0]) || rest[0] == e[0]))
  }

  lemma {:induction false} EndIs(line: Bytes, e: Bytes, rest: Bytes)
    requires OnOneLine(line) && IsEnd(e, rest)
    ensures LineEnd(line + e + rest) == |line| && NextLine(line + e + rest) == |line| + |e|
  {
    hide IsEnd;
    var s := line + e + rest;
    if line != [] {
      EndIs(line[1..], e, rest);
      assert s[1..] == line[1..] + e + rest;
      assert s[0] == line[0];
    } else {
      assert s == e + rest;
      EndAtStart(e, rest);
    }
  }

  lemma EndAtStart(e: Bytes, rest: Bytes)
    requires IsEnd(e, rest)
    ensures LineEnd(e + rest) == 0 && NextLine(e + rest) == |e| <= |e + rest|
  {
    var s := e + rest;
    assert s[0] == e[0];
    assert |e| == 1 && rest != [] ==> s[1] == rest[0];
  }

  /** However a line ends, it is read as with CR LF. */
  lemma EndsAlike(hs: seq<Header>, line: Bytes, e: Bytes, rest: Bytes)
    requires OnOneLine(line) && IsEnd(e, rest)
    ensures ParsedBlock(hs, line + e + rest) == ParsedBlock(hs, line + [CR, LF] + rest)
  {
    hide Judge, IsEnd;
    var s := line + e + rest;
    EndIs(line, e, rest);
    ReadOne(hs, line, rest);
    CutKeeps(line);
    assert s[..|line|] == line && s[|line| + |e|..] == rest;
  }

  // ----- where headers do not come back -----

  /** Cut between its CR and LF, any header line is taken for the end of the headers. */
  lemma HalfPairEndsHeaders(h: Header)
    requires WellFormed(h)
    ensures var a := h.key + [COLON, SPACE] + h.value + [CR];
      && ParsedBlock([], a + [LF]) == More([h], [])
      && Fed(ParsedBlock([], a), [LF]) == Done([h], [])
  {
    hide ParsedBlock, Judge, WellFormed;
    var line := h.key + [COLON, SPACE] + h.value;
    EmptyInput([h]);
    BlankFirst([h], [LF]);
    LineOfHeader(h);
    JudgePrinted([], h);
    assert [] + [h] == [h] && [] + [LF] == [LF] && line + [CR, LF] + [] == line + [CR] + [LF];
    ReadOne([], line, []);
    BlockByLine([], line + [CR]);
    CutKeeps(line);
    assert (line + [CR])[..|line|] == line && (line + [CR])[|line| + 1..] == [];
  }

  lemma LineOfHeader(h: Header)
    requires WellFormed(h)
    ensures var line := h.key + [COLON, SPACE] + h.value;
      OnOneLine(line) && LineEnd(line + [CR]) == |line| && NextLine(line + [CR]) == |line| + 1
  {
    LineEndOfSum(h.key + [COLON, SPACE] + h.value, [CR]);
  }

  /** A line goes on in the last header exactly as long as a slot is free. */
  lemma ContinuesTheLast(hs: seq<Header>, line: Bytes)
    requires 0 < |hs| <= HEADER_NUM
    ensures var n := |hs| - 1;
      Continued(hs, line) == hs[..n] + [Header(hs[n].key, hs[n].value + line + [NUL])] <==> |hs| < HEADER_NUM
  {
    var n := |hs| - 1;
    var wanted := hs[..n] + [Header(hs[n].key, hs[n].value + line + [NUL])];
    if |hs| == HEADER_NUM {
      assert Continued(hs, line)[n] == hs[n] && |wanted[n].value| > |hs[n].value|;
    } else {
      assert Continued(hs, line) == wanted;
    }
  }

  /** Behind 35 headers the first one is continued. */
  lemma FullGoesToFirst(hs: seq<Header>, line: Bytes, rest: Bytes)
    requires |hs| == HEADER_NUM && forall h <- hs :: WellFormed(h)
    requires OnOneLine(line) && line != [] && (line[0] == SPACE || line[0] == TAB)
    ensures ParsedBlock([], PrintedLines(hs) + (line + [CR, LF] + rest))
            == ParsedBlock(hs[0 := Header(hs[0].key, hs[0].value + line + [NUL])], rest)
  {
    hide ParsedBlock, PrintedLines;
    KeptIsShorter(hs);
    ParseLines([], hs, line + [CR, LF] + rest);
    assert [] + hs == hs;
    ReadOne(hs, line, rest);
  }

  // ----- the request -----

  /** Line ends within a value must be followed by a space or a tab. */
  function AfterEnds(s: Bytes): (r: Bytes)
    ensures |r| <= |s| && (s != [] && EndsLine(s[0]) ==> |r| < |s|)
  {
    if s != [] && EndsLine(s[0]) then AfterEnds(s[1..]) else s
  }

  predicate ValidValue(s: Bytes)
    decreases |s|
  {
    LineEnd(s) == |s|
    || (var r := AfterEnds(s[LineEnd(s)..]); r != [] && (r[0] == SPACE || r[0] == TAB) && ValidValue(r))
  }

  /** Position `i` is the last of a run of line ends, and a space or a tab follows. */
  ghost predicate GoesOn(s: Bytes, i: nat)
    requires i < |s|
  {
    EndsLine(s[i]) && (i + 1 == |s| || !EndsLine(s[i + 1])) ==> i + 1 < |s| && (s[i + 1] == SPACE || s[i + 1] == TAB)
  }

  lemma GoesOnFrom(s: Bytes, n: nat)
    requires n <= |s| && forall i :: 0 <= i < n ==> GoesOn(s, i)
    ensures (forall i :: 0 <= i < |s| ==> GoesOn(s, i)) <==> forall i :: 0 <= i < |s| - n ==> GoesOn(s[n..], i)
  {
    forall i | 0 <= i < |s| - n
      ensures GoesOn(s[n..], i) <==> GoesOn(s, n + i)
    {
    }
    assert forall i :: n <= i < |s| ==> GoesOn(s, i) == GoesOn(s[n..], i - n);
    assert forall i :: 0 <= i < |s| - n ==> GoesOn(s[n..], i) == GoesOn(s, n + i);
  }

  lemma {:induction false} AfterEndsAt(s: Bytes)
    ensures var n := |s| - |AfterEnds(s)|;
      && s[n..] == AfterEnds(s) && (forall i :: 0 <= i < n ==> EndsLine(s[i])) && (n < |s| ==> !EndsLine(s[n]))
  {
    if s != [] && EndsLine(s[0]) {
      AfterEndsAt(s[1..]);
      var n := |s[1..]| - |AfterEnds(s[1..])|;
      assert s[n + 1..] == s[1..][n..];
      forall i | 0 <= i < n + 1
        ensures EndsLine(s[i])
      {
        assert i > 0 ==> s[i] == s[1..][i - 1];
      }
    }
  }

  /** Where the first run of line ends ends: before its last position everything goes on. */
  lemma FirstRun(s: Bytes) returns (n: nat)
    requires LineEnd(s) < |s|
    ensures 0 < n <= |s| && s[n..] == AfterEnds(s[LineEnd(s)..])
    ensures EndsLine(s[n - 1]) && (n < |s| ==> !EndsLine(s[n])) && forall i :: 0 <= i < n - 1 ==> GoesOn(s, i)
  {
    hide EndsLine, AfterEnds;
    var e := LineEnd(s);
    AfterEndsAt(s[e..]);
    n := |s| - |AfterEnds(s[e..])|;
    assert s[n..] == s[e..][n - e..];
    forall i | e <= i < n
      ensures EndsLine(s[i])
    {
      assert s[e..][i - e] == s[i];
    }
    if n < |s| {
      assert s[e..][n - e] == s[n];
    }
  }

  /** A value is taken exactly if every run of line ends in it is followed by a space or a tab. */
  lemma {:induction false} ValidExactly(s: Bytes)
    ensures ValidValue(s) <==> forall i :: 0 <= i < |s| ==> GoesOn(s, i)
    decreases |s|
  {
    hide EndsLine, AfterEnds;
    if LineEnd(s) < |s| {
      var n := FirstRun(s);
      var r := s[n..];
      if r != [] && (r[0] == SPACE || r[0] == TAB) {
        ValidExactly(r);
        GoesOnFrom(s, n);
      } else {
        assert !GoesOn(s, n - 1);
      }
    }
  }

  /** What http_add_input_header and http_add_output_header take. */
  predicate Accepted(h: Header) {
    CR !in h.key && LF !in h.key && ValidValue(Cut(h.value))
  }

  /** The slots in use come first. */
  ghost predicate Slots(a: array<Header>, hs: seq<Header>)
    reads a
  {
    && a.Length == HEADER_NUM && |hs| <= HEADER_NUM && a[..|hs|] == hs
    && (forall i :: 0 <= i < |hs| ==> hs[i] != NONE)
    && (forall i :: |hs| <= i < HEADER_NUM ==> a[i] == NONE)
  }

  method HasLineEnd(s: Bytes) returns (found: bool)
    ensures found <==> CR in s || LF in s
  {
    found := LineEnd(s) < |s|;
  }

  /** The first free slot, or the number of slots. */
  method FirstFree(a: array<Header>, ghost hs: seq<Header>) returns (i: nat)
    requires Slots(a, hs)
    ensures i == |hs|
  {
    i := 0;
    while i < HEADER_NUM && !(|a[i].key| == 0 && |a[i].value| == 0)
      invariant 0 <= i <= |hs|
    {
      assert i < |hs| ==> a[i] == a[..|hs|][i];
      i := i + 1;
    }
  }

  /** http_add_input_header, http_add_output_header. */
  method AddHeader(a: array<Header>, ghost hs: seq<Header>, h: Header) returns (ok: bool)
    requires Slots(a, hs)
    modifies a
    ensures ok <==> Accepted(h)
    ensures ok <==>
      && CR !in h.key && LF !in h.key
      && var v := Cut(h.value); forall i :: 0 <= i < |v| ==> GoesOn(v, i)
    ensures Slots(a, if ok then Added(hs, h) else hs)
    ensures Slots(a, if ok && |hs| < HEADER_NUM && h != NONE then hs + [h] else hs)
  {
    ValidExactly(Cut(h.value));
    var found := HasLineEnd(h.key);
    if found || !ValidValue(Cut(h.value)) {
      return false;
    }
    var i := FirstFree(a, hs);
    if i < HEADER_NUM {
      a[i] := h;
      assert a[..i] == hs && a[..i + 1] == hs + [h];
    }
    ok := true;
  }

  /** http_append_to_last_input_header. */
  method AppendToLast(a: array<Header>, ghost hs: seq<Header>, line: Bytes) returns (ok: bool)
    requires Slots(a, hs)
    modifies a
    ensures ok <==> hs != []
    ensures Slots(a, if ok then Continued(hs, line) else hs)
  {
    var i := FirstFree(a, hs);
    if i == 0 {
      return false;
    }
    var last := if i < HEADER_NUM then i - 1 else 0;
    assert a[last] == a[..|hs|][last];
    a[last] := Header(a[last].key, a[last].value + line + [NUL]);
    ghost var now := Continued(hs, line);
    assert a[..|hs|] == now;
    ok := true;
  }

  // ----- reading line by line -----

  /** The outcome when a line has just been taken off the input. */
  function BehindLine(hs: seq<Header>, line: Bytes, rest: Bytes): Outcome {
    match Judge(hs, Cut(line))
    case Blank => Done(hs, rest)
    case Bad => Corrupted
    case Goes(hs') => ParsedBlock(hs', rest)
  }

  lemma BlockByLine(hs: seq<Header>, s: Bytes)
    ensures ParsedBlock(hs, s) == if LineEnd(s) == |s| then More(hs, s) else BehindLine(hs, s[..LineEnd(s)], s[NextLine(s)..])
  {
    hide Judge, Cut;
  }

  lemma JudgeIs(hs: seq<Header>, line: Bytes)
    ensures line == [] ==> Judge(hs, line) == Blank
    ensures line != [] && (line[0] == SPACE || line[0] == TAB) ==>
              Judge(hs, line) == if hs == [] then Bad else Goes(Continued(hs, line))
    ensures line != [] && line[0] != SPACE && line[0] != TAB ==>
              var p := Find(line, COLON);
              Judge(hs, line) == if p == |line| then Bad else Goes(Added(hs, Header(line[..p], SkipSpaces(line[p + 1..]))))
  {
    hide Continued, Added;
  }

  lemma CutHasNoEnd(line: Bytes)
    requires CR !in line && LF !in line
    ensures CR !in Cut(line) && LF !in Cut(line)
  {
  }

  lemma {:induction false} SkippedIsIn(s: Bytes)
    ensures forall c <- SkipSpaces(s) :: c in s
  {
    if s != [] && s[0] == SPACE { SkippedIsIn(s[1..]); }
  }

  /** A header read from a line is never refused. */
  lemma LinesAreAccepted(line: Bytes, p: nat)
    requires p < |line| && CR !in line && LF !in line
    ensures Accepted(Header(line[..p], SkipSpaces(line[p + 1..])))
  {
    hide Cut;
    SkippedIsIn(line[p + 1..]);
    CutHasNoEnd(SkipSpaces(line[p + 1..]));
  }

  lemma PrintedIs(h: Header)
    ensures PrintedOne(h) == Cut(h.key) + [COLON, SPACE] + Cut(h.value) + [CR, LF]
  {
  }

  lemma LinesFrom(slots: seq<Header>, i: nat)
    requires i < |slots|
    ensures PrintedLines(slots[i..]) == if IsPrinted(slots[i]) then PrintedOne(slots[i]) + PrintedLines(slots[i + 1..])
                                        else PrintedLines(slots[i + 1..])
  {
    hide PrintedOne;
    assert slots[i..][1..] == slots[i + 1..];
  }

  lemma NoLines(slots: seq<Header>)
    requires slots == []
    ensures PrintedLines(slots) == []
  {
  }

  datatype Status = AllDataRead | MoreDataExpected | DataCorrupted

  class Request {
    const inputHeaders: array<Header>
    const outputHeaders: array<Header>
    /** The bytes received and not read yet. */
    var input: Bytes
    ghost var headers: seq<Header>

    ghost predicate Valid()
      reads this, inputHeaders
    {
      Slots(inputHeaders, headers)
    }

    /** http_init_headers. */
    constructor ()
      ensures Valid() && headers == [] && input == []
      ensures Slots(outputHeaders, []) && outputHeaders != inputHeaders && fresh(inputHeaders) && fresh(outputHeaders)
    {
      inputHeaders := new Header[HEADER_NUM](_ => NONE);
      outputHeaders := new Header[HEADER_NUM](_ => NONE);
      input, headers := [], [];
    }

    /** buffer_readline: without a line's end in the buffer, nothing is taken. */
    method ReadLine() returns (found: bool, line: Bytes)
      modifies this`input
      ensures found == (LineEnd(old(input)) < |old(input)|)
      ensures !found ==> input == old(input)
      ensures found ==> line == old(input)[..LineEnd(old(input))] && input == old(input)[NextLine(old(input))..]
    {
      var len := |input|;
      var i := 0;
      assert input[0..] == input;
      while i < len
        invariant 0 <= i <= len && LineEnd(input) == i + LineEnd(input[i..])
      {
        if input[i] == CR || input[i] == LF {
          break;
        }
        assert input[i..][1..] == input[i + 1..];
        i := i + 1;
      }
      if i == len {
        return false, [];
      }
      line := input[..i];
      if i < len - 1 {
        var fch, sch := input[i], input[i + 1];
        if (sch == CR || sch == LF) && sch != fch {
          i := i + 1;
        }
      }
      input := input[i + 1..];
      found := true;
    }

    /** The body of the loop of http_parse_headers, for a line that is not blank. */
    method HandleLine(line: Bytes) returns (ok: bool)
      requires Valid() && line != [] && CR !in line && LF !in line
      modifies this`headers, inputHeaders
      ensures Valid() && Judge(old(headers), line) == if ok then Goes(headers) else Bad
    {
      hide Judge, Continued, Added, Cut, Accepted;
      JudgeIs(headers, line);
      if line[0] == SPACE || line[0] == TAB {
        ok := AppendToLast(inputHeaders, headers, line);
        if ok {
          headers := Continued(headers, line);
        }
        return;
      }
      var p := Find(line, COLON);
      if p == |line| {
        return false;
      }
      var h := Header(line[..p], SkipSpaces(line[p + 1..]));
      LinesAreAccepted(line, p);
      ok := AddHeader(inputHeaders, headers, h);
      headers := Added(headers, h);
    }

    /** http_parse_headers: what is in the buffer is read up to the blank line, or as far as its lines go. */
    method ParseHeaders() returns (status: Status)
      requires Valid()
      modifies this, inputHeaders
      ensures Valid()
      ensures match ParsedBlock(old(headers), old(input))
              case More(hs, rest) => status == MoreDataExpected && headers == hs && input == rest
              case Done(hs, rest) => status == AllDataRead && headers == hs && input == rest
              case Corrupted => status == DataCorrupted
    {
      hide Judge, Continued, Added, Cut, Accepted, ParsedBlock;
      BlockByLine(headers, input);
      var found, line := ReadLine();
      while found
        invariant Valid() && (found ==> CR !in line && LF !in line)
        invariant found ==> BehindLine(headers, line, input) == ParsedBlock(old(headers), old(input))
        invariant !found ==> ParsedBlock(old(headers), old(input)) == More(headers, input)
        decreases |input| + if found then 1 else 0
      {
        CutHasNoEnd(line);
        line := Cut(line);
        if line == [] {
          JudgeIs(headers, line);
          return AllDataRead;
        }
        var ok := HandleLine(line);
        if !ok {
          return DataCorrupted;
        }
        BlockByLine(headers, input);
        found, line := ReadLine();
      }
      status := MoreDataExpected;
    }

    /** More input is received and read. */
    method Feed(b: Bytes) returns (status: Status)
      requires Valid()
      modifies this, inputHeaders
      ensures Valid()
      ensures match Fed(More(old(headers), old(input)), b)
              case More(hs, rest) => status == MoreDataExpected && headers == hs && input == rest
              case Done(hs, rest) => status == AllDataRead && headers == hs && input == rest
              case Corrupted => status == DataCorrupted
    {
      input := input + b;
      status := ParseHeaders();
    }

    /** http_make_header, behind the first line: the slots in use that have both parts, and the blank line. */
    method MakeHeader() returns (out: Bytes)
      requires outputHeaders.Length == HEADER_NUM
      ensures out == Printed(outputHeaders[..])
    {
      hide PrintedOne, PrintedLines, Cut;
      ghost var slots := outputHeaders[..];
      out := [];
      var i := 0;
      assert slots[0..] == slots && out + PrintedLines(slots) == PrintedLines(slots);
      while i < HEADER_NUM
        invariant 0 <= i <= HEADER_NUM
        invariant out + PrintedLines(slots[i..]) == PrintedLines(slots)
      {
        var h := outputHeaders[i];
        LinesFrom(slots, i);
        if |h.key| != 0 && |h.value| != 0 {
          PrintedIs(h);
          Join(out, PrintedOne(h), PrintedLines(slots[i + 1..]));
          out := out + (Cut(h.key) + [COLON, SPACE] + Cut(h.value) + [CR, LF]);
        }
        i := i + 1;
      }
      NoLines(slots[i..]);
      out := out + [CR, LF];
    }
  }
}
